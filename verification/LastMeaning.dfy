/** What `last` means: the value of an expression in which it occurs, and the
    occurrences in the order in which they are read. */
module LastMeaning {
  import opened Lustre
  import opened Options
  import opened Activation
  import opened Lowering
  import opened Positions

  // ---------------------------------------------------------------- the value of an expression with `last`

  /** The value of `e` where `last(v)` is what `prior` gives for `v` in the same
      cycle; a `pre` of it is, like that of a variable, of the cycle before. */
  function Recall(cx: Context, e: Expr, ck: Clock, t: Trace, prior: Trace, n: nat): Value
    decreases e, 2, 0
  {
    match e
    case Const(v) => v
    case Var(x) => t(n, x)
    case Unary(op, a) => ApplyUnary(op, Recall(cx, a, ck, t, prior, n))
    case Binary(op, a, b) => ApplyBinary(op, Recall(cx, a, ck, t, prior, n), Recall(cx, b, ck, t, prior, n))
    case If(c, a, b) =>
      var v := Recall(cx, c, ck, t, prior, n);
      if v.Undef? then Undef else if Truth(v) then Recall(cx, a, ck, t, prior, n) else Recall(cx, b, ck, t, prior, n)
    case Pre(a) =>
      if !Ticked(ck, t, n) then cx.nil
      else if a.Var? then t(n-1, a.x)
      else if IsLast(a) then prior(n-1, a.args[0].x)
      else Recall(cx, a, ck, t, prior, LastTick(ck, t, n))
    case Arrow(a, b) => if Ticked(ck, t, n) then Recall(cx, b, ck, t, prior, n) else Recall(cx, a, ck, t, prior, n)
    case When(a, _, _) => Recall(cx, a, Parent(ck), t, prior, n)
    case Merge(c, a, b) =>
      if t(n, c).Undef? then Undef
      else if Truth(t(n, c)) then Recall(cx, a, On(c, true, ck), t, prior, n)
      else Recall(cx, b, On(c, false, ck), t, prior, n)
    case Call(_, f, args) =>
      if IsLast(e) then prior(n, args[0].x)
      else if f in cx.functions then Apply(cx.callees(f), RecallAll(cx, args, ck, t, prior, n))
      else Respond(cx.callees(f), RecallHistory(cx, args, ck, t, prior, n))
    case Condact(_, _, _, _, _) => Eval(cx, e, ck, t, n)
  }

  function RecallAll(cx: Context, args: seq<Expr>, ck: Clock, t: Trace, prior: Trace, n: nat): (vs: seq<Value>)
    ensures |vs| == |args|
    decreases args, 0, 0
  {
    seq(|args|, i requires 0 <= i < |args| => Recall(cx, args[i], ck, t, prior, n))
  }

  function RecallHistory(cx: Context, args: seq<Expr>, ck: Clock, t: Trace, prior: Trace, n: nat): seq<seq<Value>>
    decreases args, 1, n
  {
    (if n == 0 then [] else RecallHistory(cx, args, ck, t, prior, n-1)) +
    (if Active(ck, t, n) then [RecallAll(cx, args, ck, t, prior, n)] else [])
  }

  /** The holders of the variables `e` asks for show what `prior` gives for them. */
  ghost predicate HoldersShow(tree: Tree, asked: set<string>, t: Trace, prior: Trace, n: nat) {
    forall m: nat | m <= n :: HoldersShowAt(tree, asked, t, prior, m)
  }

  ghost predicate HoldersShowAt(tree: Tree, asked: set<string>, t: Trace, prior: Trace, m: nat) {
    forall v | v in asked :: t(m, Spell(tree, Last(v))) == prior(m, v)
  }

  lemma RememberedJoin(a: seq<Holder>, b: seq<Holder>)
    ensures Remembered(a + b) == Remembered(a) + Remembered(b)
  {
    forall i | 0 <= i < |a| ensures a[i].v in Remembered(a + b) { assert (a + b)[i] == a[i]; }
    forall i | 0 <= i < |b| ensures b[i].v in Remembered(a + b) { assert (a + b)[|a| + i] == b[i]; }
  }

  lemma {:induction false} AskedArgument(args: seq<Expr>, i: nat)
    requires i < |args|
    ensures Remembered(Lasts(args[i])) <= Remembered(LastsAll(args))
  {
    hide Lasts, Remembered;
    RememberedJoin(Lasts(args[0]), LastsAll(args[1..]));
    if i > 0 { AskedArgument(args[1..], i-1); }
  }

  /** What the operands ask for, `e` asks for. */
  lemma AskedBelow(e: Expr)
    ensures e.Binary? ==> Remembered(Lasts(e)) == Remembered(Lasts(e.lhs)) + Remembered(Lasts(e.rhs))
    ensures e.Arrow? ==> Remembered(Lasts(e)) == Remembered(Lasts(e.init)) + Remembered(Lasts(e.body))
    ensures e.Merge? ==> Remembered(Lasts(e)) == Remembered(Lasts(e.onTrue)) + Remembered(Lasts(e.onFalse))
    ensures e.If? ==> Remembered(Lasts(e)) == Remembered(Lasts(e.cond)) + Remembered(Lasts(e.thn)) + Remembered(Lasts(e.els))
    ensures IsLast(e) ==> e.args[0].x in Remembered(Lasts(e))
  {
    if e.Binary? { RememberedJoin(Lasts(e.lhs), Lasts(e.rhs)); }
    if e.Arrow? { RememberedJoin(Lasts(e.init), Lasts(e.body)); }
    if e.Merge? { RememberedJoin(Lasts(e.onTrue), Lasts(e.onFalse)); }
    if e.If? {
      RememberedJoin(Lasts(e.cond), Lasts(e.thn));
      RememberedJoin(Lasts(e.cond) + Lasts(e.thn), Lasts(e.els));
    }
    if IsLast(e) { assert Lasts(e)[0].v == e.args[0].x; }
  }

  /** Read from holders, an expression has the value it has with `last`. */
  lemma {:induction false} RelastMeans(cx: Context, tree: Tree, e: Expr, asked: set<string>, ck: Clock, t: Trace, prior: Trace, n: nat)
    requires Remembered(Lasts(e)) <= asked && HoldersShow(tree, asked, t, prior, n)
    ensures Eval(cx, Relast(tree, e), ck, t, n) == Recall(cx, e, ck, t, prior, n)
    decreases e, 2, 0
  {
    hide Spell, Remembered, HoldersShow, ApplyBinary, ApplyUnary, IsLast;
    AskedBelow(e);
    match e
    case Const(_) =>
    case Var(_) =>
    case Unary(_, a) => RelastMeans(cx, tree, a, asked, ck, t, prior, n);
    case Binary(_, a, b) =>
      RelastMeans(cx, tree, a, asked, ck, t, prior, n);
      RelastMeans(cx, tree, b, asked, ck, t, prior, n);
    case If(c, a, b) =>
      RelastMeans(cx, tree, c, asked, ck, t, prior, n);
      RelastMeans(cx, tree, a, asked, ck, t, prior, n);
      RelastMeans(cx, tree, b, asked, ck, t, prior, n);
    case Pre(a) => PreMeans(cx, tree, e, asked, ck, t, prior, n);
    case Arrow(a, b) =>
      RelastMeans(cx, tree, a, asked, ck, t, prior, n);
      RelastMeans(cx, tree, b, asked, ck, t, prior, n);
    case When(a, _, _) => RelastMeans(cx, tree, a, asked, Parent(ck), t, prior, n);
    case Merge(c, a, b) =>
      RelastMeans(cx, tree, a, asked, On(c, true, ck), t, prior, n);
      RelastMeans(cx, tree, b, asked, On(c, false, ck), t, prior, n);
    case Call(_, _, _) => CallMeans(cx, tree, e, asked, ck, t, prior, n);
    case Condact(_, _, _, _, _) =>
  }

  lemma ShownAt(tree: Tree, asked: set<string>, t: Trace, prior: Trace, n: nat, m: nat)
    requires HoldersShow(tree, asked, t, prior, n) && m <= n
    ensures HoldersShowAt(tree, asked, t, prior, m) && HoldersShow(tree, asked, t, prior, m)
  {
  }

  lemma {:induction false} PreMeans(cx: Context, tree: Tree, e: Expr, asked: set<string>, ck: Clock, t: Trace, prior: Trace, n: nat)
    requires e.Pre? && Remembered(Lasts(e)) <= asked && HoldersShow(tree, asked, t, prior, n)
    ensures Eval(cx, Relast(tree, e), ck, t, n) == Recall(cx, e, ck, t, prior, n)
    decreases e, 1, 0
  {
    hide Spell, Remembered, HoldersShow;
    AskedBelow(e.arg);
    if Ticked(ck, t, n) {
      if IsLast(e.arg) {
        ShownAt(tree, asked, t, prior, n, n-1);
      } else if !e.arg.Var? {
        RelastNotVar(tree, e.arg);
        ShownAt(tree, asked, t, prior, n, LastTick(ck, t, n));
        RelastMeans(cx, tree, e.arg, asked, ck, t, prior, LastTick(ck, t, n));
      }
    }
  }

  lemma RelastNotVar(tree: Tree, e: Expr)
    requires !e.Var? && !IsLast(e)
    ensures !Relast(tree, e).Var?
  {
    hide Spell;
  }

  lemma {:induction false} CallMeans(cx: Context, tree: Tree, e: Expr, asked: set<string>, ck: Clock, t: Trace, prior: Trace, n: nat)
    requires e.Call? && Remembered(Lasts(e)) <= asked && HoldersShow(tree, asked, t, prior, n)
    ensures Eval(cx, Relast(tree, e), ck, t, n) == Recall(cx, e, ck, t, prior, n)
    decreases e, 1, 0
  {
    hide Spell, Remembered, HoldersShow, Relast, EvalAll, RecallAll;
    AskedBelow(e);
    ShownAt(tree, asked, t, prior, n, n);
    RelastCall(tree, e);
    if !IsLast(e) {
      ArgumentsMean(cx, tree, e.args, asked, ck, t, prior, n);
      HistoryMeans(cx, tree, e.args, asked, ck, t, prior, n);
    }
  }

  function RelastAll(tree: Tree, args: seq<Expr>): (rs: seq<Expr>)
    ensures |rs| == |args|
  {
    seq(|args|, i requires 0 <= i < |args| => Relast(tree, args[i]))
  }

  lemma RelastCall(tree: Tree, e: Expr)
    requires e.Call?
    ensures Relast(tree, e) == if IsLast(e) then Var(Spell(tree, Last(e.args[0].x))) else Call(e.site, e.node, RelastAll(tree, e.args))
    ensures !IsLast(e) ==> Lasts(e) == LastsAll(e.args)
  {
    hide Spell;
  }

  lemma {:induction false} ArgumentsMean(cx: Context, tree: Tree, args: seq<Expr>, asked: set<string>, ck: Clock, t: Trace, prior: Trace, n: nat)
    requires Remembered(LastsAll(args)) <= asked && HoldersShow(tree, asked, t, prior, n)
    ensures EvalAll(cx, RelastAll(tree, args), ck, t, n) == RecallAll(cx, args, ck, t, prior, n)
    decreases args, 0, 0
  {
    hide Spell, Remembered, HoldersShow, Relast, Eval, Recall;
    forall i | 0 <= i < |args| ensures Eval(cx, Relast(tree, args[i]), ck, t, n) == Recall(cx, args[i], ck, t, prior, n) {
      AskedArgument(args, i);
      RelastMeans(cx, tree, args[i], asked, ck, t, prior, n);
    }
  }

  lemma {:induction false} HistoryMeans(cx: Context, tree: Tree, args: seq<Expr>, asked: set<string>, ck: Clock, t: Trace, prior: Trace, n: nat)
    requires Remembered(LastsAll(args)) <= asked && HoldersShow(tree, asked, t, prior, n)
    ensures History(cx, RelastAll(tree, args), ck, t, n) == RecallHistory(cx, args, ck, t, prior, n)
    decreases args, 1, n
  {
    hide Spell, Remembered, HoldersShow, RelastAll, EvalAll, RecallAll;
    ArgumentsMean(cx, tree, args, asked, ck, t, prior, n);
    if n > 0 {
      ShownAt(tree, asked, t, prior, n, n-1);
      HistoryMeans(cx, tree, args, asked, ck, t, prior, n-1);
    }
  }

  /** What an expression asks for, its image names. */
  lemma {:induction false} AskedNamed(tree: Tree, e: Expr, v: string)
    requires v in Remembered(Lasts(e))
    ensures Spell(tree, Last(v)) in Names(Relast(tree, e))
    decreases e, 1
  {
    hide Spell, Remembered;
    AskedBelow(e);
    NothingRemembered();
    match e
    case Const(_) =>
    case Var(_) =>
    case Unary(_, a) => AskedNamed(tree, a, v);
    case Binary(_, a, b) => if v in Remembered(Lasts(a)) { AskedNamed(tree, a, v); } else { AskedNamed(tree, b, v); }
    case If(c, a, b) =>
      if v in Remembered(Lasts(c)) { AskedNamed(tree, c, v); }
      else if v in Remembered(Lasts(a)) { AskedNamed(tree, a, v); }
      else { AskedNamed(tree, b, v); }
    case Pre(a) => AskedNamed(tree, a, v);
    case Arrow(a, b) => if v in Remembered(Lasts(a)) { AskedNamed(tree, a, v); } else { AskedNamed(tree, b, v); }
    case When(a, _, _) => AskedNamed(tree, a, v);
    case Merge(_, a, b) => if v in Remembered(Lasts(a)) { AskedNamed(tree, a, v); } else { AskedNamed(tree, b, v); }
    case Call(_, _, args) =>
      RelastCall(tree, e);
      if IsLast(e) {
        OneRemembered(Lasts(e)[0]);
      } else {
        ArgumentNamed(tree, args, RelastAll(tree, args), v);
      }
    case Condact(_, _, _, _, _) =>
  }

  lemma NothingRemembered()
    ensures Remembered([]) == {}
  {
  }

  lemma OneRemembered(h: Holder)
    ensures Remembered([h]) == {h.v}
  {
    assert [h][0].v == h.v;
  }

  lemma {:induction false} ArgumentNamed(tree: Tree, args: seq<Expr>, rs: seq<Expr>, v: string)
    requires v in Remembered(LastsAll(args)) && |rs| == |args| && forall i | 0 <= i < |args| :: rs[i] == Relast(tree, args[i])
    ensures Spell(tree, Last(v)) in NamesAll(rs)
    decreases args, 0
  {
    hide Spell, Remembered, Relast, Names, Lasts;
    NothingRemembered();
    if args != [] {
      RememberedJoin(Lasts(args[0]), LastsAll(args[1..]));
      if v in Remembered(Lasts(args[0])) { AskedNamed(tree, args[0], v); } else { ArgumentNamed(tree, args[1..], rs[1..], v); }
    }
  }

  // ---------------------------------------------------------------- occurrences, in reading order

  /** The `last` at a position of one of the expressions, the initial values of
      others not being looked into. */
  function LastAt(es: seq<Expr>, p: Position): Option<Expr>
    decreases |p|
  {
    if p == [] || p[0] >= |es| then None
    else if IsLast(es[p[0]]) then (if |p| == 1 then Some(es[p[0]]) else None)
    else LastAt(Operands(es[p[0]]), p[1..])
  }

  /** The holder asked for at a position. */
  function HolderAt(es: seq<Expr>, p: Position): Option<Holder> {
    var e := LastAt(es, p);
    if e.None? || !IsLast(e.value) then None
    else Some(Holder(e.value.args[0].x, if |e.value.args| == 2 then Some(e.value.args[1]) else None))
  }

  /** The positions of the occurrences, one after the other. */
  ghost predicate Found(es: seq<Expr>, found: seq<Holder>, ps: seq<Position>) {
    && |ps| == |found|
    && (forall i | 0 <= i < |ps| :: HolderAt(es, ps[i]) == Some(found[i]))
    && (forall i, j | 0 <= i < j < |ps| :: Precedes(ps[i], ps[j]))
    && (forall p: Position | HolderAt(es, p).Some? :: p in ps)
  }

  lemma OperandLasts(e: Expr)
    requires !IsLast(e)
    ensures Lasts(e) == LastsAll(Operands(e))
  {
    var es := Operands(e);
    NoLasts();
    if e.Unary? || e.Pre? || e.When? {
      LastsOne(es[0]);
    } else if e.Binary? || e.Arrow? || e.Merge? {
      LastsTwo(es[0], es[1]);
    } else if e.If? {
      LastsTwo(es[0], es[1]);
      LastsJoin([es[0], es[1]], [es[2]]);
      LastsOne(es[2]);
      assert es == [es[0], es[1]] + [es[2]];
    }
  }

  lemma LastsTwo(a: Expr, b: Expr)
    ensures LastsAll([a, b]) == Lasts(a) + Lasts(b)
  {
    hide Lasts, LastsAll;
    LastsJoin([a], [b]);
    LastsOne(a);
    LastsOne(b);
    assert [a, b] == [a] + [b];
  }

  lemma OperandsBelow(e: Expr)
    ensures forall i | 0 <= i < |Operands(e)| :: Operands(e)[i] < e
  {
  }

  function Below(k: nat, ps: seq<Position>): (r: seq<Position>)
    ensures |r| == |ps|
  {
    seq(|ps|, i requires 0 <= i < |ps| => [k] + ps[i])
  }

  function Shifted(ps: seq<Position>): (r: seq<Position>)
    ensures |r| == |ps|
  {
    seq(|ps|, i requires 0 <= i < |ps| => if ps[i] == [] then [] else [ps[i][0] + 1] + ps[i][1..])
  }

  /** Exactly the occurrences are found, in reading order. */
  lemma {:induction false} LastsFound(whole: Expr, es: seq<Expr>) returns (ps: seq<Position>)
    requires forall i | 0 <= i < |es| :: es[i] < whole
    ensures Found(es, LastsAll(es), ps)
    decreases whole, |es|
  {
    hide Lasts, IsLast, Operands, Found, FoundFirst;
    if es == [] {
      ps := [];
      NothingFound(es);
    } else {
      var rest := LastsFound(whole, es[1..]);
      var first: seq<Position>;
      if IsLast(es[0]) {
        first := [[0]];
        FoundHere(es);
      } else {
        OperandsBelow(es[0]);
        var own := LastsFound(es[0], Operands(es[0]));
        OperandLasts(es[0]);
        first := Below(0, own);
        FoundBelow(es, own);
      }
      ps := first + Shifted(rest);
      FoundRest(es, first, rest);
    }
  }

  lemma NothingFound(es: seq<Expr>)
    requires es == []
    ensures Found(es, LastsAll(es), [])
  {
  }

  /** The occurrences in the first expression. */
  ghost predicate FoundFirst(es: seq<Expr>, ps: seq<Position>)
    requires es != []
  {
    && |ps| == |Lasts(es[0])|
    && (forall i | 0 <= i < |ps| :: ps[i] != [] && ps[i][0] == 0 && HolderAt(es, ps[i]) == Some(Lasts(es[0])[i]))
    && (forall i, j | 0 <= i < j < |ps| :: Precedes(ps[i], ps[j]))
    && (forall p: Position | p != [] && p[0] == 0 && HolderAt(es, p).Some? :: p in ps)
  }

  lemma FoundHere(es: seq<Expr>)
    requires es != [] && IsLast(es[0])
    ensures FoundFirst(es, [[0]])
  {
    forall p: Position | p != [] && p[0] == 0 && HolderAt(es, p).Some? ensures p in [[0]] {
      assert |p| == 1 && p == [0];
    }
  }

  lemma FoundBelow(es: seq<Expr>, own: seq<Position>)
    requires es != [] && !IsLast(es[0]) && Found(Operands(es[0]), Lasts(es[0]), own)
    ensures FoundFirst(es, Below(0, own))
  {
    hide Lasts, IsLast, Operands;
    var ps := Below(0, own);
    forall i | 0 <= i < |ps| ensures HolderAt(es, ps[i]) == Some(Lasts(es[0])[i]) {
      assert ps[i][1..] == own[i];
    }
    forall i, j | 0 <= i < j < |ps| ensures Precedes(ps[i], ps[j]) {
      assert ps[i][1..] == own[i] && ps[j][1..] == own[j];
    }
    forall p: Position | p != [] && p[0] == 0 && HolderAt(es, p).Some? ensures p in ps {
      assert HolderAt(Operands(es[0]), p[1..]).Some?;
      var i :| 0 <= i < |own| && own[i] == p[1..];
      assert p == [0] + p[1..];
      assert ps[i] == p;
    }
  }

  /** The occurrences in the other expressions. */
  ghost predicate FoundLater(es: seq<Expr>, ps: seq<Position>)
    requires es != []
  {
    && |ps| == |LastsAll(es[1..])|
    && (forall i | 0 <= i < |ps| :: ps[i] != [] && ps[i][0] > 0 && HolderAt(es, ps[i]) == Some(LastsAll(es[1..])[i]))
    && (forall i, j | 0 <= i < j < |ps| :: Precedes(ps[i], ps[j]))
    && (forall p: Position | p != [] && p[0] > 0 && HolderAt(es, p).Some? :: p in ps)
  }

  lemma FoundShifted(es: seq<Expr>, rest: seq<Position>)
    requires es != [] && Found(es[1..], LastsAll(es[1..]), rest)
    ensures FoundLater(es, Shifted(rest))
  {
    hide HolderAt, Precedes, LastsAll, Shifted;
    var later := Shifted(rest);
    forall i | 0 <= i < |later|
      ensures later[i] != [] && later[i][0] > 0 && HolderAt(es, later[i]) == Some(LastsAll(es[1..])[i])
    {
      ShiftedHolder(es, rest, i);
    }
    forall i, j | 0 <= i < j < |later| ensures Precedes(later[i], later[j]) { ShiftedOrder(es, rest, i, j); }
    forall p: Position | p != [] && p[0] > 0 && HolderAt(es, p).Some? ensures p in later { LaterListed(es, rest, p); }
  }

  lemma ShiftedHolder(es: seq<Expr>, rest: seq<Position>, i: nat)
    requires es != [] && i < |rest| && HolderAt(es[1..], rest[i]).Some?
    ensures rest[i] != [] && Shifted(rest)[i] == [rest[i][0] + 1] + rest[i][1..]
    ensures HolderAt(es, Shifted(rest)[i]) == HolderAt(es[1..], rest[i])
  {
    hide HolderAt;
    LaterHolder(es, rest[i]);
  }

  lemma ShiftedOrder(es: seq<Expr>, rest: seq<Position>, i: nat, j: nat)
    requires es != [] && i < j < |rest| && HolderAt(es[1..], rest[i]).Some? && HolderAt(es[1..], rest[j]).Some?
    requires Precedes(rest[i], rest[j])
    ensures Precedes(Shifted(rest)[i], Shifted(rest)[j])
  {
    hide HolderAt, Precedes, Shifted;
    ShiftedHolder(es, rest, i);
    ShiftedHolder(es, rest, j);
    ShiftedPrecedes(rest[i], rest[j]);
  }

  lemma LaterListed(es: seq<Expr>, rest: seq<Position>, p: Position)
    requires es != [] && p != [] && p[0] > 0 && HolderAt(es, p).Some?
    requires forall q: Position | HolderAt(es[1..], q).Some? :: q in rest
    ensures p in Shifted(rest)
  {
    hide HolderAt;
    var q := [p[0] - 1] + p[1..];
    assert q[1..] == p[1..];
    assert p == [q[0] + 1] + q[1..];
    LaterHolder(es, q);
    var i :| 0 <= i < |rest| && rest[i] == q;
    assert Shifted(rest)[i] == p;
  }

  lemma FoundRest(es: seq<Expr>, first: seq<Position>, rest: seq<Position>)
    requires es != [] && FoundFirst(es, first) && Found(es[1..], LastsAll(es[1..]), rest)
    ensures Found(es, LastsAll(es), first + Shifted(rest))
  {
    hide Found;
    FoundShifted(es, rest);
    FoundBoth(es, first, Shifted(rest));
  }

  lemma FoundBoth(es: seq<Expr>, first: seq<Position>, later: seq<Position>)
    requires es != [] && FoundFirst(es, first) && FoundLater(es, later)
    ensures Found(es, LastsAll(es), first + later)
  {
    hide HolderAt, Lasts, Precedes;
    var ps, found := first + later, LastsAll(es);
    assert found == Lasts(es[0]) + LastsAll(es[1..]);
    forall i, j | 0 <= i < j < |ps| ensures Precedes(ps[i], ps[j]) {
      if i < |first| && j >= |first| { FirstPrecedes(ps[i], ps[j]); }
    }
    forall p: Position | HolderAt(es, p).Some? ensures p in ps {
      HolderSomewhere(es, p);
      if p[0] == 0 { assert p in first; } else { assert p in later; }
    }
  }

  lemma FirstPrecedes(p: Position, q: Position)
    requires p != [] && q != [] && p[0] < q[0]
    ensures Precedes(p, q)
  {
  }

  lemma HolderSomewhere(es: seq<Expr>, p: Position)
    requires HolderAt(es, p).Some?
    ensures p != []
  {
  }

  lemma LaterHolder(es: seq<Expr>, q: Position)
    requires es != []
    ensures HolderAt(es[1..], q).Some? ==> q != []
    ensures q != [] ==> HolderAt(es, [q[0] + 1] + q[1..]) == HolderAt(es[1..], q)
  {
    hide IsLast, Operands;
    if q != [] {
      var p := [q[0] + 1] + q[1..];
      assert p[1..] == q[1..];
      assert q[0] < |es[1..]| ==> es[1..][q[0]] == es[p[0]];
    }
  }

  lemma ShiftedPrecedes(p: Position, q: Position)
    requires Precedes(p, q) && p != []
    ensures q != [] && Precedes([p[0] + 1] + p[1..], [q[0] + 1] + q[1..])
  {
    var a, b := [p[0] + 1] + p[1..], [q[0] + 1] + q[1..];
    assert a[1..] == p[1..] && b[1..] == q[1..];
  }

  // ---------------------------------------------------------------- the initial value of a holder

  /** The expressions of an activation in the order they are read: the
      conditions, then the scopes' values. */
  function Conditions(tree: Tree): (es: seq<Expr>)
    ensures |es| == |tree.branches|
  {
    seq(|tree.branches|, i requires 0 <= i < |tree.branches| => tree.branches[i].condition)
  }

  function Values(eqs: seq<Equation>): (es: seq<Expr>)
    ensures |es| == |eqs|
  {
    seq(|eqs|, i requires 0 <= i < |eqs| => eqs[i].rhs)
  }

  function ScopeValues(tree: Tree, m: nat): seq<Expr> {
    if m == 0 then [] else ScopeValues(tree, m-1) + Values(Scope(tree, m-1))
  }

  function ReadingOrder(tree: Tree): seq<Expr> {
    Conditions(tree) + ScopeValues(tree, |tree.branches| + 1)
  }

  lemma {:induction false} LastsJoin(a: seq<Expr>, b: seq<Expr>)
    ensures LastsAll(a + b) == LastsAll(a) + LastsAll(b)
  {
    hide LastsAll;
    NoLasts();
    if a == [] {
      assert a + b == b;
    } else {
      LastsJoin(a[1..], b);
      LastsHead(a);
      LastsHead(a + b);
      assert (a + b)[1..] == a[1..] + b;
    }
  }

  lemma LastsHead(es: seq<Expr>)
    requires es != []
    ensures LastsAll(es) == Lasts(es[0]) + LastsAll(es[1..])
  {
    hide Lasts;
  }

  lemma LastsOne(e: Expr)
    ensures LastsAll([e]) == Lasts(e)
  {
    hide Lasts;
    assert LastsAll([e]) == Lasts(e) + LastsAll([e][1..]);
  }

  lemma {:induction false} ConditionsAsked(tree: Tree, m: nat)
    requires m <= |tree.branches|
    ensures ConditionLasts(tree, m) == LastsAll(Conditions(tree)[..m])
  {
    hide Lasts, LastsAll;
    if m > 0 {
      ConditionsAsked(tree, m-1);
      LastsJoin(Conditions(tree)[..m-1], [Conditions(tree)[m-1]]);
      LastsOne(Conditions(tree)[m-1]);
      assert Conditions(tree)[..m] == Conditions(tree)[..m-1] + [Conditions(tree)[m-1]];
    } else {
      assert Conditions(tree)[..0] == [];
      NoLasts();
    }
  }

  lemma NoLasts()
    ensures LastsAll([]) == []
  {
  }

  lemma {:induction false} ValuesAsked(eqs: seq<Equation>, m: nat)
    requires m <= |eqs|
    ensures EquationLasts(eqs, m) == LastsAll(Values(eqs)[..m])
  {
    hide Lasts, LastsAll;
    if m > 0 {
      ValuesAsked(eqs, m-1);
      LastsJoin(Values(eqs)[..m-1], [Values(eqs)[m-1]]);
      LastsOne(Values(eqs)[m-1]);
      assert Values(eqs)[..m] == Values(eqs)[..m-1] + [Values(eqs)[m-1]];
    } else {
      assert Values(eqs)[..0] == [];
      NoLasts();
    }
  }

  lemma {:induction false} ScopesAsked(tree: Tree, m: nat)
    ensures ScopeLasts(tree, m) == LastsAll(ScopeValues(tree, m))
  {
    hide LastsAll, EquationLasts, Scope;
    if m > 0 {
      ScopesAsked(tree, m-1);
      var eqs := Scope(tree, m-1);
      ValuesAsked(eqs, |eqs|);
      assert Values(eqs)[..|eqs|] == Values(eqs);
      LastsJoin(ScopeValues(tree, m-1), Values(eqs));
    } else {
      NoLasts();
    }
  }

  function Occurrences(tree: Tree): seq<Holder> {
    ConditionLasts(tree, |tree.branches|) + ScopeLasts(tree, |tree.branches| + 1)
  }

  lemma OccurrencesRead(tree: Tree)
    ensures Occurrences(tree) == LastsAll(ReadingOrder(tree))
  {
    hide LastsAll, ConditionLasts, ScopeLasts;
    ConditionsAsked(tree, |tree.branches|);
    assert Conditions(tree)[..|tree.branches|] == Conditions(tree);
    ScopesAsked(tree, |tree.branches| + 1);
    LastsJoin(Conditions(tree), ScopeValues(tree, |tree.branches| + 1));
  }

  lemma {:induction false} ConditionAskedUpTo(tree: Tree, i: nat, m: nat)
    requires i < m <= |tree.branches|
    ensures Remembered(Lasts(tree.branches[i].condition)) <= Remembered(ConditionLasts(tree, m))
    decreases m
  {
    hide Lasts, Remembered;
    RememberedJoin(ConditionLasts(tree, m-1), Lasts(tree.branches[m-1].condition));
    if i < m-1 { ConditionAskedUpTo(tree, i, m-1); }
  }

  /** What a condition asks for has a holder. */
  lemma ConditionAsked(tree: Tree, i: nat)
    requires i < |tree.branches|
    ensures Remembered(Lasts(tree.branches[i].condition)) <= Remembered(Occurrences(tree))
  {
    hide Lasts, Remembered, ConditionLasts, ScopeLasts;
    ConditionAskedUpTo(tree, i, |tree.branches|);
    RememberedJoin(ConditionLasts(tree, |tree.branches|), ScopeLasts(tree, |tree.branches| + 1));
  }

  lemma {:induction false} EquationAsked(eqs: seq<Equation>, j: nat, m: nat)
    requires j < m <= |eqs|
    ensures Remembered(Lasts(eqs[j].rhs)) <= Remembered(EquationLasts(eqs, m))
    decreases m
  {
    hide Lasts, Remembered;
    RememberedJoin(EquationLasts(eqs, m-1), Lasts(eqs[m-1].rhs));
    if j < m-1 { EquationAsked(eqs, j, m-1); }
  }

  lemma {:induction false} ScopeAsked(tree: Tree, k: nat, m: nat)
    requires k < m
    ensures Remembered(EquationLasts(Scope(tree, k), |Scope(tree, k)|)) <= Remembered(ScopeLasts(tree, m))
    decreases m
  {
    hide EquationLasts, Remembered, Scope;
    RememberedJoin(ScopeLasts(tree, m-1), EquationLasts(Scope(tree, m-1), |Scope(tree, m-1)|));
    if k < m-1 { ScopeAsked(tree, k, m-1); }
  }

  /** And so has what a scope's value asks for. */
  lemma ValueAsked(tree: Tree, k: nat, j: nat)
    requires k <= |tree.branches| && j < |Scope(tree, k)|
    ensures Remembered(Lasts(Scope(tree, k)[j].rhs)) <= Remembered(Occurrences(tree))
  {
    hide Lasts, Remembered, ConditionLasts, ScopeLasts, EquationLasts, Scope;
    EquationAsked(Scope(tree, k), j, |Scope(tree, k)|);
    ScopeAsked(tree, k, |tree.branches| + 1);
    RememberedJoin(ConditionLasts(tree, |tree.branches|), ScopeLasts(tree, |tree.branches| + 1));
  }

  /** The initial value kept is that of the first occurrence that gives one. */
  lemma {:induction false} FirstInitAt(occurrences: seq<Holder>, v: string)
    ensures FirstInit(occurrences, v).Some? ==>
      exists k: nat :: k < |occurrences| && occurrences[k] == Holder(v, FirstInit(occurrences, v))
                       && forall j | 0 <= j < k && occurrences[j].v == v :: occurrences[j].init.None?
    ensures FirstInit(occurrences, v).None? ==> forall j | 0 <= j < |occurrences| && occurrences[j].v == v :: occurrences[j].init.None?
    decreases |occurrences|
  {
    if occurrences != [] {
      var n := |occurrences| - 1;
      FirstInitAt(occurrences[..n], v);
      var before := FirstInit(occurrences[..n], v);
      if before.Some? {
        var k: nat :| k < n && occurrences[..n][k] == Holder(v, before)
                      && forall j | 0 <= j < k && occurrences[..n][j].v == v :: occurrences[..n][j].init.None?;
        assert occurrences[k] == Holder(v, before);
        forall j | 0 <= j < k && occurrences[j].v == v ensures occurrences[j].init.None? { assert occurrences[..n][j] == occurrences[j]; }
      } else {
        forall j | 0 <= j < n && occurrences[j].v == v ensures occurrences[j].init.None? { assert occurrences[..n][j] == occurrences[j]; }
        if occurrences[n].v == v && occurrences[n].init.Some? { assert occurrences[n] == Holder(v, FirstInit(occurrences, v)); }
      }
    }
  }

  /** `p` is where the initial value of `v` comes from: it gives one, and no
      occurrence of `v` read earlier does. */
  ghost predicate GivesInit(tree: Tree, v: string, init: Expr, p: Position) {
    && HolderAt(ReadingOrder(tree), p) == Some(Holder(v, Some(init)))
    && forall q: Position | Precedes(q, p) && HolderAt(ReadingOrder(tree), q).Some? && HolderAt(ReadingOrder(tree), q).value.v == v ::
         HolderAt(ReadingOrder(tree), q).value.init.None?
  }

  /** A holder starts from the first initial value read for its variable, and
      from the default exactly if none is given. */
  lemma HolderInit(tree: Tree, v: string)
    ensures var init := FirstInit(Occurrences(tree), v);
      && (init.Some? ==> exists p :: GivesInit(tree, v, init.value, p))
      && (init.None? ==> forall p: Position | HolderAt(ReadingOrder(tree), p).Some? && HolderAt(ReadingOrder(tree), p).value.v == v ::
                           HolderAt(ReadingOrder(tree), p).value.init.None?)
  {
    hide HolderAt, LastsAll, ReadingOrder, ConditionLasts, ScopeLasts;
    var es, found := ReadingOrder(tree), Occurrences(tree);
    OccurrencesRead(tree);
    var ps := LastsFound(Call(0, "", es), es);
    FirstInitAt(found, v);
    var init := FirstInit(found, v);
    if init.Some? {
      var k: nat :| k < |found| && found[k] == Holder(v, init)
                    && forall j | 0 <= j < k && found[j].v == v :: found[j].init.None?;
      forall q: Position | Precedes(q, ps[k]) && HolderAt(es, q).Some? && HolderAt(es, q).value.v == v ensures HolderAt(es, q).value.init.None? {
        var j :| 0 <= j < |ps| && ps[j] == q;
        EarlierIndex(ps, j, k);
      }
      assert GivesInit(tree, v, init.value, ps[k]);
    } else {
      forall p: Position | HolderAt(es, p).Some? && HolderAt(es, p).value.v == v ensures HolderAt(es, p).value.init.None? {
        var j :| 0 <= j < |ps| && ps[j] == p;
      }
    }
  }

  lemma EarlierIndex(ps: seq<Position>, j: nat, k: nat)
    requires j < |ps| && k < |ps| && Precedes(ps[j], ps[k]) && forall a, b | 0 <= a < b < |ps| :: Precedes(ps[a], ps[b])
    ensures j < k
  {
    hide Precedes;
    PrecedesOne(ps[j], ps[k]);
    PrecedesOne(ps[k], ps[k]);
  }
}
