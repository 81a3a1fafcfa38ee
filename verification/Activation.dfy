/** Prioritized conditional activation ("activate if") and its lowering to
    sampled dataflow: flags, guards, sampled reads, scope values and merges. */
module Activation {
  import opened Lustre
  import opened Clocks
  import opened Options
  import opened FreshNames

  datatype Port = Port(name: string, ty: Type)

  /** One `if` / `elsif` branch; each equation assigns one output of the activation. */
  datatype Branch = Branch(name: string, condition: Expr, equations: seq<Equation>)

  datatype Tree = Tree(name: string, outputs: seq<Port>, branches: seq<Branch>, otherwise: seq<Equation>)

  datatype Failure =
    | NoBranches
    | NoOutputs
    | DuplicateBranch(name: string)
    | OutputUnassigned(output: string, scope: string)
    | LastArgs
    | LastUnknown(v: string)


  /** A new local and its equation. */
  datatype Definition = Definition(name: string, ty: Type, rhs: Expr)

  datatype Lowered = Lowered(locals: seq<Port>, equations: seq<Equation>)

  // ---------------------------------------------------------------- generated names

  /** The locals a lowering introduces; scopes and branches count from 0. */
  datatype Generated =
    | Flag(k: nat)
    | NoneUpTo(k: nat)
    | Guard(k: nat)
    | Sample(k: nat, v: string)
    | Value(k: nat, o: string)
    | Last(v: string)

  /** The else scope, number `n`, is tagged `e`. */
  function Tag(n: nat, k: nat): string {
    if k < n then Numeral(k + 1) else "e"
  }

  function Suffix(n: nat, g: Generated): string {
    match g
    case Flag(k) => "b" + Numeral(k + 1)
    case NoneUpTo(k) => "n" + Numeral(k + 1)
    case Guard(k) => "g" + Numeral(k + 1)
    case Sample(k, v) => "s" + Tag(n, k) + "_" + v
    case Value(k, o) => "x" + Tag(n, k) + "_" + o
    case Last(v) => "last_" + v
  }

  function Prefix(tree: Tree): string {
    "__act_" + tree.name + "_"
  }

  function Spell(tree: Tree, g: Generated): string {
    Prefix(tree) + Suffix(|tree.branches|, g)
  }

  /** Numbers a lowering of `n` branches uses. */
  predicate InUse(n: nat, g: Generated) {
    match g
    case Sample(k, _) => k <= n
    case Value(k, _) => k <= n
    case _ => true
  }

  lemma TagInjective(n: nat, j: nat, k: nat)
    requires j <= n && k <= n && Tag(n, j) == Tag(n, k)
    ensures j == k
  {
    hide Numeral;
    assert Numeral(j + 1)[0] in DIGITS && Numeral(k + 1)[0] in DIGITS;
    if j < n && k < n {
      NumeralInjective(j + 1, k + 1);
    }
  }

  lemma TagPlain(n: nat, k: nat)
    ensures '_' !in Tag(n, k)
  {
  }

  /** Different locals never get the same name. */
  lemma SpellInjective(tree: Tree, g: Generated, h: Generated)
    requires InUse(|tree.branches|, g) && InUse(|tree.branches|, h)
    requires Spell(tree, g) == Spell(tree, h)
    ensures g == h
  {
    var n := |tree.branches|;
    var p := |Prefix(tree)|;
    assert Spell(tree, g)[p..] == Suffix(n, g) && Spell(tree, h)[p..] == Suffix(n, h);
    SuffixInjective(n, g, h);
  }

  lemma SuffixInjective(n: nat, g: Generated, h: Generated)
    requires InUse(n, g) && InUse(n, h) && Suffix(n, g) == Suffix(n, h)
    ensures g == h
  {
    assert Suffix(n, g)[0] == Suffix(n, h)[0];
    if g.Sample? || g.Value? {
      TaggedInjective(n, g, h);
    } else if g.Last? {
      assert Suffix(n, g)[5..] == g.v && Suffix(n, h)[5..] == h.v;
    } else {
      NumberedInjective(n, g, h);
    }
  }

  function Named(g: Generated): string
    requires g.Sample? || g.Value?
  {
    if g.Sample? then g.v else g.o
  }

  lemma TaggedInjective(n: nat, g: Generated, h: Generated)
    requires (g.Sample? && h.Sample?) || (g.Value? && h.Value?)
    requires InUse(n, g) && InUse(n, h) && Suffix(n, g) == Suffix(n, h)
    ensures g == h
  {
    TagPlain(n, g.k);
    TagPlain(n, h.k);
    assert Suffix(n, g)[1..] == Tag(n, g.k) + "_" + Named(g) && Suffix(n, h)[1..] == Tag(n, h.k) + "_" + Named(h);
    SplitFirst('_', Tag(n, g.k), Named(g), Tag(n, h.k), Named(h));
    TagInjective(n, g.k, h.k);
  }

  lemma NumberedInjective(n: nat, g: Generated, h: Generated)
    requires (g.Flag? && h.Flag?) || (g.NoneUpTo? && h.NoneUpTo?) || (g.Guard? && h.Guard?)
    requires Suffix(n, g) == Suffix(n, h)
    ensures g == h
  {
    assert Suffix(n, g)[1..] == Numeral(g.k + 1) && Suffix(n, h)[1..] == Numeral(h.k + 1);
    NumeralInjective(g.k + 1, h.k + 1);
  }

  // ---------------------------------------------------------------- `last`

  /** A well-formed occurrence of `last(v)` or `last(v, init)`. */
  predicate IsLast(e: Expr) {
    e.Call? && e.node == "last" && 1 <= |e.args| <= 2 && e.args[0].Var?
  }

  /** Every `last` in `e` is well formed. */
  predicate LastsOk(e: Expr) {
    match e
    case Const(_) => true
    case Var(_) => true
    case Unary(_, a) => LastsOk(a)
    case Binary(_, a, b) => LastsOk(a) && LastsOk(b)
    case If(c, a, b) => LastsOk(c) && LastsOk(a) && LastsOk(b)
    case Pre(a) => LastsOk(a)
    case Arrow(a, b) => LastsOk(a) && LastsOk(b)
    case When(a, _, _) => LastsOk(a)
    case Merge(_, a, b) => LastsOk(a) && LastsOk(b)
    case Call(_, f, args) => IsLast(e) || (f != "last" && forall i | 0 <= i < |args| :: LastsOk(args[i]))
    case Condact(_, _, _, _, _) => true
  }

  /** `e` with every `last(v)` read from its holder. */
  function Relast(tree: Tree, e: Expr): Expr {
    match e
    case Const(_) => e
    case Var(_) => e
    case Unary(op, a) => Unary(op, Relast(tree, a))
    case Binary(op, a, b) => Binary(op, Relast(tree, a), Relast(tree, b))
    case If(c, a, b) => If(Relast(tree, c), Relast(tree, a), Relast(tree, b))
    case Pre(a) => Pre(Relast(tree, a))
    case Arrow(a, b) => Arrow(Relast(tree, a), Relast(tree, b))
    case When(a, c, on) => When(Relast(tree, a), c, on)
    case Merge(c, a, b) => Merge(c, Relast(tree, a), Relast(tree, b))
    case Call(site, f, args) =>
      if IsLast(e) then Var(Spell(tree, Last(args[0].x)))
      else Call(site, f, seq(|args|, i requires 0 <= i < |args| => Relast(tree, args[i])))
    case Condact(_, _, _, _, _) => e
  }

  /** A variable whose previous value is asked for, with the initial value given. */
  datatype Holder = Holder(v: string, init: Option<Expr>)

  /** The `last` occurrences of `e`, in the order they are met. */
  function Lasts(e: Expr): seq<Holder> {
    match e
    case Const(_) => []
    case Var(_) => []
    case Unary(_, a) => Lasts(a)
    case Binary(_, a, b) => Lasts(a) + Lasts(b)
    case If(c, a, b) => Lasts(c) + Lasts(a) + Lasts(b)
    case Pre(a) => Lasts(a)
    case Arrow(a, b) => Lasts(a) + Lasts(b)
    case When(a, _, _) => Lasts(a)
    case Merge(_, a, b) => Lasts(a) + Lasts(b)
    case Call(_, _, args) =>
      if IsLast(e) then [Holder(args[0].x, if |args| == 2 then Some(args[1]) else None)] else LastsAll(args)
    case Condact(_, _, _, _, _) => []
  }

  function LastsAll(args: seq<Expr>): seq<Holder> {
    if args == [] then [] else Lasts(args[0]) + LastsAll(args[1..])
  }

  function Remembered(found: seq<Holder>): set<string> {
    set i | 0 <= i < |found| :: found[i].v
  }

  /** One holder per variable; the first explicit initial value is kept. */
  function Note(found: seq<Holder>, h: Holder): seq<Holder> {
    if found == [] then [h]
    else if found[0].v == h.v then [if found[0].init.None? then h else found[0]] + found[1..]
    else [found[0]] + Note(found[1..], h)
  }

  function Collect(occurrences: seq<Holder>): seq<Holder> {
    if occurrences == [] then []
    else Note(Collect(occurrences[..|occurrences|-1]), occurrences[|occurrences|-1])
  }

  /** The initial value the first occurrence that gives one gives `v`. */
  function FirstInit(occurrences: seq<Holder>, v: string): Option<Expr> {
    if occurrences == [] then None else
    var h := occurrences[|occurrences|-1];
    OrElse(FirstInit(occurrences[..|occurrences|-1], v), if h.v == v then h.init else None)
  }

  /** No variable has two holders. */
  ghost predicate Apart(found: seq<Holder>) {
    forall i, j | 0 <= i < j < |found| :: found[i].v != found[j].v
  }

  ghost predicate NotedOne(found: seq<Holder>, h: Holder, x: Holder) {
    (h.v !in Remembered(found) && x == h) || exists y :: y in found && y.v == h.v && x.init == OrElse(y.init, h.init)
  }

  lemma {:induction false} NoteKeeps(found: seq<Holder>, h: Holder)
    requires Apart(found)
    ensures NoteOk(found, h, Note(found, h))
    decreases |found|
  {
    if found == [] {
      assert Note(found, h)[0] == h;
    } else if found[0].v == h.v {
      NoteHead(found, h);
    } else {
      assert Apart(found[1..]);
      NoteKeeps(found[1..], h);
      NoteTail(found, h, Note(found[1..], h));
    }
  }

  /** `r` is `found` with `h` noted. */
  ghost predicate NoteOk(found: seq<Holder>, h: Holder, r: seq<Holder>) {
    && Apart(r) && Remembered(r) == Remembered(found) + {h.v}
    && (forall x | x in r && x.v != h.v :: x in found)
    && (forall x | x in r && x.v == h.v :: NotedOne(found, h, x))
  }

  lemma NoteHead(found: seq<Holder>, h: Holder)
    requires found != [] && Apart(found) && found[0].v == h.v
    ensures NoteOk(found, h, [if found[0].init.None? then h else found[0]] + found[1..])
  {
    var r := [if found[0].init.None? then h else found[0]] + found[1..];
    assert found[0] in found && r[0].init == OrElse(found[0].init, h.init);
    RememberedHead(found);
    RememberedHead(r);
    assert r[1..] == found[1..];
    assert forall i | 0 <= i < |r| :: r[i].v == found[i].v;
    forall x | x in r && x.v == h.v ensures NotedOne(found, h, x) {
      var i :| 0 <= i < |r| && r[i] == x;
      assert found[i].v == found[0].v;
    }
  }

  lemma NoteTail(found: seq<Holder>, h: Holder, rest: seq<Holder>)
    requires found != [] && Apart(found) && found[0].v != h.v && NoteOk(found[1..], h, rest)
    ensures NoteOk(found, h, [found[0]] + rest)
  {
    hide NotedOne, Remembered, Apart;
    var r := [found[0]] + rest;
    RememberedHead(found);
    RememberedHead(r);
    assert r[1..] == rest;
    HeadApart(found);
    ApartCons(found[0], rest);
    forall x | x in r && x.v == h.v ensures NotedOne(found, h, x) {
      assert x in rest && NotedOne(found[1..], h, x);
      NotedAfter(found, h, x);
    }
  }

  lemma HeadApart(found: seq<Holder>)
    requires found != [] && Apart(found)
    ensures found[0].v !in Remembered(found[1..])
  {
  }

  lemma ApartCons(first: Holder, rest: seq<Holder>)
    requires Apart(rest) && first.v !in Remembered(rest)
    ensures Apart([first] + rest)
  {
    assert forall j | 0 <= j < |rest| :: rest[j].v in Remembered(rest);
  }

  lemma NotedAfter(found: seq<Holder>, h: Holder, x: Holder)
    requires found != [] && found[0].v != h.v && NotedOne(found[1..], h, x)
    ensures NotedOne(found, h, x)
  {
    RememberedHead(found);
  }

  lemma RememberedHead(found: seq<Holder>)
    requires found != []
    ensures Remembered(found) == {found[0].v} + Remembered(found[1..])
  {
    forall x | x in Remembered(found) ensures x in {found[0].v} + Remembered(found[1..]) {
      var i :| 0 <= i < |found| && found[i].v == x;
      if i > 0 { assert found[1..][i-1].v == x; }
    }
    forall x | x in Remembered(found[1..]) ensures x in Remembered(found) {
      var i :| 0 <= i < |found[1..]| && found[1..][i].v == x;
      assert found[i+1].v == x;
    }
  }

  lemma RememberedLast(found: seq<Holder>)
    requires found != []
    ensures Remembered(found) == Remembered(found[..|found|-1]) + {found[|found|-1].v}
  {
    var rest := found[..|found|-1];
    forall x | x in Remembered(found) ensures x in Remembered(rest) + {found[|found|-1].v} {
      var i :| 0 <= i < |found| && found[i].v == x;
      if i < |rest| { assert rest[i].v == x; }
    }
    forall x | x in Remembered(rest) ensures x in Remembered(found) {
      var i :| 0 <= i < |rest| && rest[i].v == x;
      assert found[i].v == x;
    }
  }

  /** Exactly the variables that occur have a holder, starting from the first
      explicit initial value. */
  lemma {:induction false} CollectRight(occurrences: seq<Holder>)
    ensures Apart(Collect(occurrences)) && Remembered(Collect(occurrences)) == Remembered(occurrences)
    ensures forall h | h in Collect(occurrences) :: h.init == FirstInit(occurrences, h.v)
    decreases |occurrences|
  {
    if occurrences != [] {
      var k := |occurrences| - 1;
      CollectRight(occurrences[..k]);
      RememberedLast(occurrences);
      NoteKeeps(Collect(occurrences[..k]), occurrences[k]);
      forall h | h in Collect(occurrences) ensures h.init == FirstInit(occurrences, h.v) {
        CollectInit(occurrences, h);
      }
    }
  }

  lemma CollectInit(occurrences: seq<Holder>, h: Holder)
    requires occurrences != []
    requires
      var rest := occurrences[..|occurrences|-1];
      var last := occurrences[|occurrences|-1];
      && Remembered(Collect(rest)) == Remembered(rest)
      && (forall g | g in Collect(rest) :: g.init == FirstInit(rest, g.v))
      && (if h.v == last.v then NotedOne(Collect(rest), last, h) else h in Collect(rest))
    ensures h.init == FirstInit(occurrences, h.v)
  {
    NoInit(occurrences[..|occurrences|-1], h.v);
  }

  lemma {:induction false} NoInit(occurrences: seq<Holder>, v: string)
    ensures v !in Remembered(occurrences) ==> FirstInit(occurrences, v) == None
    decreases |occurrences|
  {
    if occurrences != [] {
      var k := |occurrences| - 1;
      NoInit(occurrences[..k], v);
      if v !in Remembered(occurrences) {
        assert occurrences[k].v != v;
        forall i | 0 <= i < k ensures occurrences[..k][i].v != v {
          assert occurrences[i].v != v;
        }
      }
    }
  }
}
