/** Detecting dependency cycles among constants with a worklist: no recursion
    through the constants, each visited when its last dependency is. */
module ConstantCycles {
  import opened Graphs

  /** A constant and the names its value mentions, each listed once. */
  datatype Constant = Constant(name: string, mentions: seq<string>)

  function Names(constants: seq<Constant>): set<string> {
    set i | 0 <= i < |constants| :: constants[i].name
  }

  ghost predicate UniqueNames(constants: seq<Constant>) {
    && (forall i, j | 0 <= i < j < |constants| :: constants[i].name != constants[j].name)
    && (forall i | 0 <= i < |constants| :: Distinct(constants[i].mentions))
  }

  /** The dependency graph: of what a constant mentions, the constants. */
  function DependencyGraph(constants: seq<Constant>): (g: Graph<string>)
    ensures g.Keys == Names(constants)
  {
    if constants == [] then map[] else
    var k := |constants| - 1;
    assert Names(constants) == Names(constants[..k]) + {constants[k].name} by { NamesLast(constants); }
    DependencyGraph(constants[..k])[constants[k].name := Elements(constants[k].mentions)]
  }

  lemma NamesLast(constants: seq<Constant>)
    requires constants != []
    ensures Names(constants) == Names(constants[..|constants|-1]) + {constants[|constants|-1].name}
  {
    var k := |constants| - 1;
    forall x | x in Names(constants) ensures x in Names(constants[..k]) + {constants[k].name} {
      var i :| 0 <= i < |constants| && constants[i].name == x;
      if i < k { assert constants[..k][i].name == x; }
    }
    forall x | x in Names(constants[..k]) ensures x in Names(constants) {
      var i :| 0 <= i < k && constants[..k][i].name == x;
      assert constants[i].name == x;
    }
  }

  lemma NewName(constants: seq<Constant>, i: nat)
    requires UniqueNames(constants) && i < |constants|
    ensures UniqueNames(constants[..i]) && Distinct(constants[i].mentions)
    ensures constants[i].name !in DependencyGraph(constants[..i])
  {
  }

  lemma {:induction false} GraphAt(constants: seq<Constant>, i: nat)
    requires UniqueNames(constants) && i < |constants|
    ensures DependencyGraph(constants)[constants[i].name] == Elements(constants[i].mentions)
    decreases |constants|
  {
    var k := |constants| - 1;
    if i < k { GraphAt(constants[..k], i); }
  }

  // ---------------------------------------------------------------- the worklist's state

  type Counts = map<string, nat>

  type Users = map<string, seq<string>>

  /** Of the names mentioned, those of constants. */
  function Among(mentions: set<string>, names: set<string>): set<string> {
    set d | d in mentions && d in names
  }

  /** What a constant depends on and is not dequeued yet. */
  function Open(g: Graph<string>, c: string, done: set<string>): set<string>
    requires c in g
  {
    Among(g[c], g.Keys) - done
  }

  function UsersOf(users: Users, d: string): set<string> {
    if d in users then Elements(users[d]) else {}
  }

  function Dependents(g: Graph<string>, d: string): set<string> {
    set c | c in g && d in g[c]
  }

  /** `users` lists, for each name of `names`, the constants depending on it, once each. */
  ghost predicate UsersRight(g: Graph<string>, names: set<string>, users: Users) {
    && (forall d | d in users :: Distinct(users[d]))
    && (forall d :: UsersOf(users, d) == if d in names then Dependents(g, d) else {})
  }

  ghost predicate CountsRight(g: Graph<string>, names: set<string>, pending: Counts) {
    && pending.Keys == g.Keys
    && (forall c | c in pending :: pending[c] == |Among(g[c], names)|)
  }

  /** The count is the number of dependencies open, or was before the last
      constant was dequeued, if this one is late to hear of it. */
  ghost predicate CountOpen(g: Graph<string>, pending: Counts, done: seq<string>, late: set<string>, c: string)
    requires c in g && c in pending
  {
    if c in late then done != [] && pending[c] == |Open(g, c, Elements(done[..|done|-1]))|
    else pending[c] == |Open(g, c, Elements(done))|
  }

  ghost predicate CountsOpen(g: Graph<string>, pending: Counts, done: seq<string>, late: set<string>) {
    && pending.Keys == g.Keys - Elements(done)
    && forall c | c in pending :: CountOpen(g, pending, done, late, c)
  }

  /** The queue holds exactly the waiting constants with nothing open. */
  ghost predicate QueueRight(pending: Counts, ready: seq<string>) {
    Distinct(ready) && forall c :: c in ready <==> c in pending && pending[c] == 0
  }

  /** The constants dequeued, in an order that respects the dependencies. */
  ghost predicate DoneRight(g: Graph<string>, done: seq<string>) {
    Distinct(done) && Elements(done) <= g.Keys && DependenciesFirst(g, done)
  }

  // ---------------------------------------------------------------- setting up

  method DependenciesAmong(mentions: seq<string>, names: set<string>) returns (deps: seq<string>)
    requires Distinct(mentions)
    ensures Distinct(deps) && Elements(deps) == Among(Elements(mentions), names)
  {
    deps := [];
    for i := 0 to |mentions|
      invariant Distinct(deps) && Elements(deps) == Among(Elements(mentions[..i]), names)
    {
      assert Elements(mentions[..i+1]) == Elements(mentions[..i]) + {mentions[i]};
      if mentions[i] in names {
        assert mentions[i] !in Elements(deps);
        assert Elements(deps + [mentions[i]]) == Elements(deps) + {mentions[i]};
        deps := deps + [mentions[i]];
      }
    }
    assert mentions[..|mentions|] == mentions;
  }

  /** Adds `user` to the users of each of its dependencies. */
  method AddUser(users: Users, user: string, deps: seq<string>) returns (more: Users)
    requires Distinct(deps)
    requires forall d | d in users :: Distinct(users[d]) && user !in users[d]
    ensures forall d | d in more :: Distinct(more[d])
    ensures forall d :: UsersOf(more, d) == UsersOf(users, d) + if d in deps then {user} else {}
  {
    more := users;
    for i := 0 to |deps|
      invariant forall d | d in more :: Distinct(more[d])
      invariant forall d :: UsersOf(more, d) == UsersOf(users, d) + if d in deps[..i] then {user} else {}
    {
      var d := deps[i];
      assert UsersOf(more, d) == UsersOf(users, d);
      var list := if d in more then more[d] else [];
      assert user !in Elements(list);
      assert Elements(list + [user]) == Elements(list) + {user};
      var before := more;
      more := more[d := list + [user]];
      forall x ensures UsersOf(more, x) == UsersOf(users, x) + if x in deps[..i+1] then {user} else {} {
        if x != d { assert UsersOf(more, x) == UsersOf(before, x); }
      }
    }
    assert deps[..|deps|] == deps;
  }

  lemma NothingBuilt(names: set<string>)
    ensures CountsRight(map[], names, map[]) && UsersRight(map[], names, map[])
  {
    forall d ensures Dependents(map[], d) == {} {}
  }

  lemma CountOne(g: Graph<string>, names: set<string>, pending: Counts, c: Constant, n: nat)
    requires CountsRight(g, names, pending) && n == |Among(Elements(c.mentions), names)|
    ensures CountsRight(g[c.name := Elements(c.mentions)], names, pending[c.name := n])
  {
  }

  lemma NotYetUser(g: Graph<string>, names: set<string>, users: Users, c: string)
    requires UsersRight(g, names, users) && c !in g
    ensures forall d | d in users :: Distinct(users[d]) && c !in users[d]
  {
    hide Distinct;
    forall d | d in users ensures c !in users[d] { assert c !in UsersOf(users, d); }
  }

  lemma UserAdded(g: Graph<string>, names: set<string>, users: Users, c: Constant, more: Users)
    requires UsersRight(g, names, users) && c.name !in g
    requires forall d | d in more :: Distinct(more[d])
    requires forall d :: UsersOf(more, d) == UsersOf(users, d) + if d in Among(Elements(c.mentions), names) then {c.name} else {}
    ensures UsersRight(g[c.name := Elements(c.mentions)], names, more)
  {
    hide Distinct, UsersOf, Elements;
    var g' := g[c.name := Elements(c.mentions)];
    forall d ensures UsersOf(more, d) == if d in names then Dependents(g', d) else {} {
      assert Dependents(g', d) == Dependents(g, d) + if d in Elements(c.mentions) then {c.name} else {};
    }
  }

  method Build(constants: seq<Constant>, names: set<string>) returns (pending: Counts, users: Users)
    requires UniqueNames(constants)
    ensures CountsRight(DependencyGraph(constants), names, pending)
    ensures UsersRight(DependencyGraph(constants), names, users)
  {
    hide CountsRight, UsersRight, UsersOf, Distinct;
    pending, users := map[], map[];
    NothingBuilt(names);
    for i := 0 to |constants|
      invariant CountsRight(DependencyGraph(constants[..i]), names, pending)
      invariant UsersRight(DependencyGraph(constants[..i]), names, users)
    {
      var c := constants[i];
      ghost var g, g' := DependencyGraph(constants[..i]), DependencyGraph(constants[..i+1]);
      assert g' == g[c.name := Elements(c.mentions)] by { assert constants[..i+1][..i] == constants[..i]; }
      NewName(constants, i);
      var deps := DependenciesAmong(c.mentions, names);
      DistinctElements(deps);
      CountOne(g, names, pending, c, |deps|);
      pending := pending[c.name := |deps|];
      NotYetUser(g, names, users, c.name);
      ghost var before := users;
      users := AddUser(users, c.name, deps);
      UserAdded(g, names, before, c, users);
    }
    assert constants[..|constants|] == constants;
  }

  method Start(pending: Counts) returns (ready: seq<string>)
    ensures QueueRight(pending, ready)
  {
    ready := [];
    var left := pending.Keys;
    while left != {}
      invariant left <= pending.Keys
      invariant Distinct(ready) && forall c :: c in ready <==> c in pending && c !in left && pending[c] == 0
    {
      var c :| c in left;
      left := left - {c};
      if pending[c] == 0 { ready := ready + [c]; }
    }
  }

  // ---------------------------------------------------------------- the worklist

  lemma OneFewer(g: Graph<string>, c: string, done: seq<string>)
    requires c in g && done != [] && Distinct(done) && done[|done|-1] in g
    ensures done[|done|-1] in g[c] ==>
      |Open(g, c, Elements(done[..|done|-1]))| == |Open(g, c, Elements(done))| + 1
    ensures done[|done|-1] !in g[c] ==>
      Open(g, c, Elements(done[..|done|-1])) == Open(g, c, Elements(done))
  {
    var last, before := done[|done|-1], done[..|done|-1];
    assert done == before + [last];
    assert Elements(done) == Elements(before) + {last};
    assert last !in Elements(before);
    if last in g[c] {
      assert Open(g, c, Elements(before)) == Open(g, c, Elements(done)) + {last};
    }
  }

  lemma AppendName(g: Graph<string>, done: seq<string>, name: string)
    requires DoneRight(g, done) && name in g && name !in Elements(done)
    requires Open(g, name, Elements(done)) == {}
    ensures DoneRight(g, done + [name]) && Elements(done + [name]) == Elements(done) + {name}
  {
    forall d | d in g[name] * g.Keys ensures d in Elements(done) { assert d !in Open(g, name, Elements(done)); }
    AppendReady(g, done, name);
  }

  /** Takes `name` off: the constants that use it are late to hear of it. */
  lemma Dequeued(g: Graph<string>, pending: Counts, done: seq<string>, name: string)
    requires DoneRight(g, done) && CountsOpen(g, pending, done, {})
    requires name in pending && pending[name] == 0
    ensures DoneRight(g, done + [name]) && CountsOpen(g, pending - {name}, done + [name], Dependents(g, name))
  {
    var done' := done + [name];
    assert CountOpen(g, pending, done, {}, name);
    AppendName(g, done, name);
    assert done'[..|done'|-1] == done && done'[|done'|-1] == name;
    var less, late := pending - {name}, Dependents(g, name);
    forall c | c in less ensures CountOpen(g, less, done', late, c) {
      assert CountOpen(g, pending, done, {}, c);
      hide DoneRight, CountsOpen, Open, Elements;
      OneFewer(g, c, done');
    }
  }

  lemma ToldOne(g: Graph<string>, done: seq<string>, pending: Counts, late: set<string>, user: string)
    requires DoneRight(g, done) && done != [] && CountsOpen(g, pending, done, late)
    requires user in late && user in pending && user in Dependents(g, done[|done|-1])
    ensures pending[user] > 0
    ensures CountsOpen(g, pending[user := pending[user] - 1], done, late - {user})
  {
    assert CountOpen(g, pending, done, late, user);
    assert done[|done|-1] in Elements(done);
    OneFewer(g, user, done);
    var less, late' := pending[user := pending[user] - 1], late - {user};
    forall c | c in less ensures CountOpen(g, less, done, late', c) {
      hide Open, Elements;
      assert CountOpen(g, pending, done, late, c);
    }
  }

  /** Tells every user of the constant last dequeued. */
  method Tell(ghost g: Graph<string>, ghost done: seq<string>, users: seq<string>, before: Counts, queue: seq<string>)
      returns (pending: Counts, ready: seq<string>)
    requires DoneRight(g, done) && done != []
    requires Distinct(users) && Elements(users) == Dependents(g, done[|done|-1])
    requires CountsOpen(g, before, done, Elements(users)) && QueueRight(before, queue)
    ensures CountsOpen(g, pending, done, {}) && QueueRight(pending, ready) && pending.Keys == before.Keys
  {
    hide DoneRight, CountsOpen, Dependents;
    pending, ready := before, queue;
    assert users[0..] == users;
    for i := 0 to |users|
      invariant CountsOpen(g, pending, done, Elements(users[i..])) && QueueRight(pending, ready)
      invariant pending.Keys == before.Keys
    {
      var user := users[i];
      assert Elements(users[i+1..]) == Elements(users[i..]) - {user} by {
        hide QueueRight;
        assert users[i..] == [user] + users[i+1..];
      }
      if user in pending {
        assert user in Elements(users);
        ToldOne(g, done, pending, Elements(users[i..]), user);
        pending := pending[user := pending[user] - 1];
        if pending[user] == 0 { ready := ready + [user]; }
      } else {
        Unheard(g, done, pending, Elements(users[i..]), user);
      }
    }
    assert Elements(users[|users|..]) == {};
  }

  lemma Unheard(g: Graph<string>, done: seq<string>, pending: Counts, late: set<string>, user: string)
    requires CountsOpen(g, pending, done, late) && user !in pending
    ensures CountsOpen(g, pending, done, late - {user})
  {
    hide Open, Elements;
    forall c | c in pending ensures CountOpen(g, pending, done, late - {user}, c) {
      assert CountOpen(g, pending, done, late, c);
    }
  }

  lemma WaitsForLeft(g: Graph<string>, pending: Counts, done: seq<string>, c: string)
    requires CountsOpen(g, pending, done, {}) && QueueRight(pending, []) && c in pending
    ensures DependsInto(g, c, pending.Keys)
  {
    hide Distinct, Elements;
    assert CountOpen(g, pending, done, {}, c);
    var d :| d in Open(g, c, Elements(done));
    assert d in pending.Keys && Edge(g, c, d);
  }

  /** What is left when nothing is ready any more depends on itself. */
  lemma LeftIsStuck(g: Graph<string>, pending: Counts, done: seq<string>)
    requires DoneRight(g, done) && CountsOpen(g, pending, done, {}) && QueueRight(pending, [])
    ensures if pending.Keys == {} then Acyclic(g) else Stuck(g, pending.Keys)
  {
    hide CountOpen, DependsInto, DependenciesFirst, Elements, Acyclic, QueueRight;
    if pending.Keys == {} {
      forall c | c in g.Keys ensures c in Elements(done) { assert c !in pending.Keys; }
      TopologicalAcyclic(g, done);
    }
    forall c | c in pending.Keys ensures DependsInto(g, c, pending.Keys) {
      WaitsForLeft(g, pending, done, c);
    }
  }

  /** Every set of constants that wait for each other is left. */
  lemma StuckIsLeft(g: Graph<string>, pending: Counts, done: seq<string>, s: set<string>)
    requires DoneRight(g, done) && CountsOpen(g, pending, done, {}) && Stuck(g, s)
    ensures s <= pending.Keys
  {
    NoneDone(g, done, |done|, s);
    assert done[..|done|] == done;
    forall c | c in s ensures c in pending.Keys { assert DependsInto(g, c, s); }
  }

  /** A constant on, or waiting for, a cycle is never dequeued. */
  lemma {:induction false} NoneDone(g: Graph<string>, done: seq<string>, n: nat, s: set<string>)
    requires DependenciesFirst(g, done) && Stuck(g, s) && n <= |done|
    ensures Elements(done[..n]) !! s
  {
    if n > 0 {
      NoneDone(g, done, n - 1, s);
      assert done[..n] == done[..n-1] + [done[n-1]];
      assert ReadyAt(g, done, n - 1);
      assert done[n-1] in s ==> DependsInto(g, done[n-1], s);
    }
  }

  lemma NothingDone(g: Graph<string>)
    ensures DoneRight(g, []) && Elements<string>([]) == {}
  {
  }

  lemma Started(g: Graph<string>, pending: Counts)
    requires CountsRight(g, g.Keys, pending)
    ensures DoneRight(g, []) && CountsOpen(g, pending, [], {})
  {
    hide DoneRight, Elements, Open, CountsOpen;
    NothingDone(g);
    AllOpen(g, pending, []);
  }

  lemma AllOpen(g: Graph<string>, pending: Counts, done: seq<string>)
    requires CountsRight(g, g.Keys, pending) && Elements(done) == {}
    ensures CountsOpen(g, pending, done, {})
  {
    hide Elements, Among;
    forall c | c in pending ensures CountOpen(g, pending, done, {}, c) {
      var open := Open(g, c, Elements(done));
      assert open == Among(g[c], g.Keys);
    }
  }

  lemma UsersListed(g: Graph<string>, users: Users, pending: Counts, done: seq<string>, name: string, told: seq<string>)
    requires UsersRight(g, g.Keys, users) && CountsOpen(g, pending, done, {}) && name in pending
    requires told == if name in users then users[name] else []
    ensures Distinct(told) && Elements(told) == Dependents(g, name)
  {
    assert name in g;
    assert Elements(told) == UsersOf(users, name);
  }

  lemma Shifted(pending: Counts, ready: seq<string>)
    requires QueueRight(pending, ready) && ready != []
    ensures QueueRight(pending - {ready[0]}, ready[1..])
  {
    forall c ensures c in ready[1..] <==> c in ready && c != ready[0] {}
  }

  /** Succeeds exactly when no constant depends on itself; otherwise names the
      largest set of constants each depending on another of the set. */
  method CheckConstantCycles(constants: seq<Constant>) returns (left: set<string>)
    requires UniqueNames(constants)
    ensures left == {} <==> Acyclic(DependencyGraph(constants))
    ensures left != {} ==> Stuck(DependencyGraph(constants), left)
    ensures forall s | Stuck(DependencyGraph(constants), s) :: s <= left
  {
    hide DoneRight, CountsOpen, CountsRight, UsersRight, Distinct, Stuck, Acyclic, DependencyGraph;
    ghost var g := DependencyGraph(constants);
    var pending, users := Build(constants, Names(constants));
    var ready := Start(pending);
    ghost var done: seq<string> := [];
    Started(g, pending);
    while ready != []
      invariant DoneRight(g, done)
      invariant CountsOpen(g, pending, done, {}) && QueueRight(pending, ready)
      decreases pending.Keys
    {
      var name := ready[0];
      assert name in pending && pending[name] == 0;
      var told := if name in users then users[name] else [];
      UsersListed(g, users, pending, done, name, told);
      Dequeued(g, pending, done, name);
      assert QueueRight(pending - {name}, ready[1..]) by { Shifted(pending, ready); }
      pending, ready, done := pending - {name}, ready[1..], done + [name];
      pending, ready := Tell(g, done, told, pending, ready);
    }
    LeftIsStuck(g, pending, done);
    forall s | Stuck(g, s) ensures s <= pending.Keys { StuckIsLeft(g, pending, done, s); }
    if pending.Keys != {} { StuckCyclic(g, pending.Keys); }
    left := pending.Keys;
  }
}
