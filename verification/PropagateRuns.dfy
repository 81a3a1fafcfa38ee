/** Running a project whose checks are passed up: what the root's local of a
    check shows of the instance the check is in. */
module PropagateRuns {
  import opened Graphs
  import opened Propagate

  // ---------------------------------------------------------------- a check seen through the calls of a path

  /** A boolean over time. */
  type Stream = nat -> bool

  /** How often `act` held before `n`. */
  function Count(act: Stream, n: nat): nat {
    if n == 0 then 0 else Count(act, n-1) + if act(n-1) then 1 else 0
  }

  /** An extra output of a clocked call, as its caller sees it: `c` in the
      instance's own time, held in between and `true` before the first tick. */
  function Condact(act: Stream, c: Stream): Stream {
    (n: nat) => Shown(act, c, n)
  }

  function Shown(act: Stream, c: Stream, n: nat): bool {
    if act(n) then c(Count(act, n)) else n == 0 || Shown(act, c, n-1)
  }

  /** Through the calls of a path, outermost first; an unclocked call is always active. */
  function Lifted(acts: seq<Stream>, c: Stream): Stream
    decreases |acts|
  {
    if acts == [] then c else Lifted(acts[..|acts|-1], Condact(acts[|acts|-1], c))
  }

  /** The instance at the end of the path ticks in the root's cycle `n`. */
  predicate TicksAt(acts: seq<Stream>, n: nat)
    decreases |acts|, n
  {
    acts == [] || (TicksAt(acts[..|acts|-1], n) && acts[|acts|-1](LocalTime(acts[..|acts|-1], n)))
  }

  /** How often the instance ticked before the root's cycle `n`: its own cycle number. */
  function LocalTime(acts: seq<Stream>, n: nat): nat
    decreases |acts|, n
  {
    if n == 0 then 0 else LocalTime(acts, n-1) + if TicksAt(acts, n-1) then 1 else 0
  }

  lemma {:induction false} RootTime(n: nat)
    ensures LocalTime([], n) == n
  {
    if n > 0 { RootTime(n-1); }
  }

  /** An instance's time is counted in its caller's. */
  lemma {:induction false} NestedTime(acts: seq<Stream>, act: Stream, n: nat)
    ensures LocalTime(acts + [act], n) == Count(act, LocalTime(acts, n))
    decreases n
  {
    if n > 0 {
      NestedTime(acts, act, n-1);
      assert (acts + [act])[..|acts|] == acts;
    }
  }

  /** Every cycle number an instance has reached was one of its ticks. */
  lemma {:induction false} EarlierTick(acts: seq<Stream>, n: nat, m: nat) returns (k: nat)
    requires m < LocalTime(acts, n)
    ensures k < n && TicksAt(acts, k) && LocalTime(acts, k) == m
    decreases n
  {
    if m == LocalTime(acts, n-1) { k := n-1; } else { k := EarlierTick(acts, n-1, m); }
  }

  lemma {:induction false} ShownHolds(act: Stream, c: Stream, m: nat)
    requires forall k: nat | k <= m && act(k) :: c(Count(act, k))
    ensures Shown(act, c, m)
    decreases m
  {
    if !act(m) && m > 0 { ShownHolds(act, c, m-1); }
  }

  ghost predicate AlwaysTrue(c: Stream) {
    forall n: nat :: c(n)
  }

  /** `c` holds at the tick, if it is one, of the root's cycle `n`. */
  predicate HoldsAt(acts: seq<Stream>, c: Stream, n: nat) {
    TicksAt(acts, n) ==> c(LocalTime(acts, n))
  }

  ghost predicate TrueOnTicks(acts: seq<Stream>, c: Stream) {
    forall n: nat :: HoldsAt(acts, c, n)
  }

  /** A check is true at the root in every cycle exactly when it is true on
      every tick of its instance. */
  lemma {:induction false} AlwaysAtRoot(acts: seq<Stream>, c: Stream)
    ensures AlwaysTrue(Lifted(acts, c)) <==> TrueOnTicks(acts, c)
    decreases |acts|
  {
    if acts == [] {
      forall n: nat ensures HoldsAt([], c, n) <==> c(n) { RootTime(n); }
    } else {
      var rest, act := acts[..|acts|-1], acts[|acts|-1];
      AlwaysAtRoot(rest, Condact(act, c));
      OneLevel(acts, rest, act, c);
    }
  }

  /** One more call on the path. */
  lemma OneLevel(acts: seq<Stream>, rest: seq<Stream>, act: Stream, c: Stream)
    requires acts == rest + [act]
    ensures TrueOnTicks(rest, Condact(act, c)) <==> TrueOnTicks(acts, c)
  {
    assert acts[..|acts|-1] == rest;
    if TrueOnTicks(rest, Condact(act, c)) {
      forall n: nat ensures HoldsAt(acts, c, n) {
        NestedTime(rest, act, n);
        assert HoldsAt(rest, Condact(act, c), n);
      }
    }
    if TrueOnTicks(acts, c) {
      forall n: nat ensures HoldsAt(rest, Condact(act, c), n) {
        if TicksAt(rest, n) { HeldTrue(acts, rest, act, c, n); }
      }
    }
  }

  lemma HeldTrue(acts: seq<Stream>, rest: seq<Stream>, act: Stream, c: Stream, n: nat)
    requires acts == rest + [act] && TicksAt(rest, n) && TrueOnTicks(acts, c)
    ensures Shown(act, c, LocalTime(rest, n))
  {
    forall k: nat | k <= LocalTime(rest, n) && act(k) ensures c(Count(act, k)) {
      var m: nat := n;
      if k < LocalTime(rest, n) { m := EarlierTick(rest, n, k); }
      TickCounted(acts, rest, act, c, m, k);
    }
    ShownHolds(act, c, LocalTime(rest, n));
  }

  lemma TickCounted(acts: seq<Stream>, rest: seq<Stream>, act: Stream, c: Stream, m: nat, k: nat)
    requires acts == rest + [act] && TicksAt(rest, m) && LocalTime(rest, m) == k && act(k) && HoldsAt(acts, c, m)
    ensures c(Count(act, k))
  {
    assert acts[..|acts|-1] == rest;
    NestedTime(rest, act, m);
  }

  lemma {:induction false} SameShown(act: Stream, c: Stream, d: Stream, n: nat)
    requires forall m: nat :: c(m) == d(m)
    ensures Shown(act, c, n) == Shown(act, d, n)
  {
    if !act(n) && n > 0 { SameShown(act, c, d, n-1); }
  }

  lemma {:induction false} SameLifted(acts: seq<Stream>, c: Stream, d: Stream, n: nat)
    requires forall m: nat :: c(m) == d(m)
    ensures Lifted(acts, c)(n) == Lifted(acts, d)(n)
    decreases |acts|
  {
    if acts != [] {
      var act := acts[|acts|-1];
      forall m: nat ensures Condact(act, c)(m) == Condact(act, d)(m) { SameShown(act, c, d, m); }
      SameLifted(acts[..|acts|-1], Condact(act, c), Condact(act, d), n);
    }
  }

  /** The outermost call of a path comes last. */
  lemma {:induction false} OuterCall(act: Stream, rest: seq<Stream>, c: Stream, n: nat)
    ensures Lifted([act] + rest, c)(n) == Shown(act, Lifted(rest, c), n)
    decreases |rest|
  {
    var all := [act] + rest;
    if rest == [] {
      assert all[..0] == [] && all[|all|-1] == act;
    } else {
      var last := rest[|rest|-1];
      assert all[..|all|-1] == [act] + rest[..|rest|-1] && all[|all|-1] == last;
      OuterCall(act, rest[..|rest|-1], Condact(last, c), n);
    }
  }

  const ALWAYS: Stream := (n: nat) => true

  lemma {:induction false} AlwaysShown(c: Stream, n: nat)
    ensures Count(ALWAYS, n) == n && Shown(ALWAYS, c, n) == c(n)
  {
    if n > 0 { AlwaysShown(c, n-1); }
  }

  // ---------------------------------------------------------------- runs of the rewritten project

  /** Every instance's locals in its own time. Instances are the paths from the root. */
  type Values = (seq<string>, nat, string) -> bool

  /** When the i-th call of an instance is activated, in that instance's time. */
  type Activity = (seq<string>, nat) -> Stream

  /** The time of the i-th call's instance in its caller's. */
  function CallTime(calls: seq<Call>, at: seq<string>, i: nat, acts: Activity): Stream
    requires i < |calls|
  {
    if calls[i].clocked then acts(at, i) else ALWAYS
  }

  /** The j-th further output of the i-th call in cycle `n`: a plain call shows
      the callee's local, a conditional activation holds it between the ticks
      and shows its default before the first. */
  ghost predicate OutputRuns(V: Values, acts: Activity, at: seq<string>, calls: seq<Call>, i: nat, wire: Wire, outs: seq<Pending>, j: nat, n: nat)
    requires i < |calls| && j < |wire.extra| == |outs| && (calls[i].clocked ==> |wire.defaults| == |outs|)
  {
    var inner := at + [Tag(calls, i)];
    V(at, n, wire.extra[j]) ==
      if !calls[i].clocked then V(inner, n, outs[j].local)
      else if acts(at, i)(n) then V(inner, Count(acts(at, i), n), outs[j].local)
      else if n == 0 then wire.defaults[j]
      else V(at, n-1, wire.extra[j])
  }

  ghost predicate CallRuns(p: Project, V: Values, acts: Activity, at: seq<string>, name: string, i: nat, wire: Wire, done: map<string, seq<Pending>>)
    requires name in p && i < |p[name].calls| && WireFits(p, p[name].calls[i], wire, done)
  {
    var calls := p[name].calls;
    calls[i].callee in p ==>
      forall j: nat, n: nat | j < |wire.extra| :: OutputRuns(V, acts, at, calls, i, wire, done[calls[i].callee], j, n)
  }

  /** The instance at `at` of node `name` solves its rewritten call equations. */
  ghost predicate InstanceRuns(p: Project, V: Values, acts: Activity, at: seq<string>, name: string, wires: seq<Wire>, done: map<string, seq<Pending>>)
    requires name in p && WiresFit(p, name, wires, done)
  {
    forall i: nat | i < |wires| :: CallRuns(p, V, acts, at, name, i, wires[i], done)
  }

  ghost predicate ProjectRuns(p: Project, rank: map<string, nat>, root: string, done: map<string, seq<Pending>>, wires: map<string, seq<Wire>>,
                              V: Values, acts: Activity)
    requires Ranked(p, rank)
  {
    forall at, name | name in done && Finished(p, rank, done, wires, name) && IsInstance(p, root, at, name) ::
      InstanceRuns(p, V, acts, at, name, wires[name], done)
  }

  // ---------------------------------------------------------------- the streams along a path

  /** The number of the call with a tag. */
  ghost function CallOf(calls: seq<Call>, tag: string): nat
    requires exists i :: Tagged(calls, tag, i)
    ensures Tagged(calls, tag, CallOf(calls, tag))
  {
    var i :| Tagged(calls, tag, i);
    i
  }

  /** When the instances along a path, from the one at `at`, are activated. */
  ghost function Along(p: Project, at: seq<string>, name: string, path: seq<string>, acts: Activity): seq<Stream>
    decreases |path|
  {
    if path == [] || name !in p || !(exists i :: Tagged(p[name].calls, path[0], i)) then [] else
    var i := CallOf(p[name].calls, path[0]);
    [CallTime(p[name].calls, at, i, acts)] + Along(p, at + [path[0]], p[name].calls[i].callee, path[1..], acts)
  }

  lemma {:induction false} InstanceBelow(p: Project, root: string, at: seq<string>, name: string, i: nat)
    requires IsInstance(p, root, at, name) && name in p && i < |p[name].calls| && p[name].calls[i].callee in p
    ensures IsInstance(p, root, at + [Tag(p[name].calls, i)], p[name].calls[i].callee)
    decreases |at|
  {
    var tag, callee := Tag(p[name].calls, i), p[name].calls[i].callee;
    var longer := at + [tag];
    if at == [] {
      assert longer[1..] == [];
      assert Tagged(p[root].calls, longer[0], i) && IsInstance(p, p[root].calls[i].callee, longer[1..], callee);
    } else {
      var j :| Tagged(p[root].calls, at[0], j) && IsInstance(p, p[root].calls[j].callee, at[1..], name);
      InstanceBelow(p, p[root].calls[j].callee, at[1..], name, i);
      assert longer[1..] == at[1..] + [tag];
      assert Tagged(p[root].calls, longer[0], j) && IsInstance(p, p[root].calls[j].callee, longer[1..], callee);
    }
  }

  lemma OnlyCall(calls: seq<Call>, i: nat)
    requires i < |calls| && forall k | 0 <= k < |calls| :: '#' !in calls[k].callee
    ensures exists k :: Tagged(calls, Tag(calls, i), k)
    ensures CallOf(calls, Tag(calls, i)) == i
  {
    assert Tagged(calls, Tag(calls, i), i);
    var k := CallOf(calls, Tag(calls, i));
    if k < i { TagsDiffer(calls, k, i); }
    if i < k { TagsDiffer(calls, i, k); }
  }

  // ---------------------------------------------------------------- what a passed-up local shows

  /** The check itself, in the time of its instance. */
  function CheckOf(V: Values, at: seq<string>, c: Pending): Stream {
    (n: nat) => V(at + c.path, n, c.check)
  }

  /** The local shows the check as seen through the calls of its path. */
  ghost predicate ShowsCheck(p: Project, V: Values, acts: Activity, at: seq<string>, name: string, c: Pending) {
    forall n: nat :: ShowsCheckAt(p, V, acts, at, name, c, n)
  }

  ghost predicate ShowsCheckAt(p: Project, V: Values, acts: Activity, at: seq<string>, name: string, c: Pending, n: nat) {
    V(at, n, c.local) == Lifted(Along(p, at, name, c.path, acts), CheckOf(V, at, c))(n)
  }

  lemma OwnShows(p: Project, V: Values, acts: Activity, at: seq<string>, name: string, c: Pending)
    requires name in p && c in OwnPending(name, p[name].checks)
    ensures ShowsCheck(p, V, acts, at, name, c)
  {
    assert c.path == [] && c.local == c.check;
    assert at + c.path == at;
    forall n: nat ensures ShowsCheckAt(p, V, acts, at, name, c, n) {}
  }

  /** The further output of a call shows what the callee's local does, in its time. */
  lemma {:induction false} OutputShows(V: Values, acts: Activity, at: seq<string>, calls: seq<Call>, i: nat, wire: Wire, outs: seq<Pending>, j: nat, n: nat)
    requires i < |calls| && j < |wire.extra| == |outs| && wire.defaults == Defaults(calls[i].clocked, |outs|)
    requires forall m: nat :: OutputRuns(V, acts, at, calls, i, wire, outs, j, m)
    ensures V(at, n, wire.extra[j]) == Shown(CallTime(calls, at, i, acts), (m: nat) => V(at + [Tag(calls, i)], m, outs[j].local), n)
  {
    var inner: Stream := (m: nat) => V(at + [Tag(calls, i)], m, outs[j].local);
    assert OutputRuns(V, acts, at, calls, i, wire, outs, j, n);
    if !calls[i].clocked {
      AlwaysShown(inner, n);
    } else if !acts(at, i)(n) && n > 0 {
      OutputShows(V, acts, at, calls, i, wire, outs, j, n-1);
    }
  }

  lemma PassedShows(p: Project, V: Values, acts: Activity, at: seq<string>, name: string, i: nat, wire: Wire, done: map<string, seq<Pending>>, j: nat)
    requires name in p && i < |p[name].calls| && WireFits(p, p[name].calls[i], wire, done) && p[name].calls[i].callee in p
    requires forall k | 0 <= k < |p[name].calls| :: '#' !in p[name].calls[k].callee
    requires CallRuns(p, V, acts, at, name, i, wire, done) && j < |wire.extra|
    requires ShowsCheck(p, V, acts, at + [Tag(p[name].calls, i)], p[name].calls[i].callee, done[p[name].calls[i].callee][j])
    ensures ShowsCheck(p, V, acts, at, name, PassedBy(p, name, i, wire, done)[j])
  {
    var calls, callee := p[name].calls, p[name].calls[i].callee;
    var tag, sub := Tag(calls, i), done[callee][j];
    var c := PassedBy(p, name, i, wire, done)[j];
    assert c == Pending(wire.extra[j], sub.node, sub.check, [tag] + sub.path);
    OnlyCall(calls, i);
    assert c.path[0] == tag && c.path[1..] == sub.path;
    var rest := Along(p, at + [tag], callee, sub.path, acts);
    var act := CallTime(calls, at, i, acts);
    assert Along(p, at, name, c.path, acts) == [act] + rest;
    assert at + c.path == at + [tag] + sub.path;
    hide Along, Tag, PassedBy, Lifted, Shown;
    forall n: nat ensures ShowsCheckAt(p, V, acts, at, name, c, n) {
      var inner: Stream := (m: nat) => V(at + [tag], m, sub.local);
      OutputShows(V, acts, at, calls, i, wire, done[callee], j, n);
      forall m: nat ensures inner(m) == Lifted(rest, CheckOf(V, at + [tag], sub))(m) {
        assert ShowsCheckAt(p, V, acts, at + [tag], callee, sub, m);
      }
      SameShown(act, inner, Lifted(rest, CheckOf(V, at + [tag], sub)), n);
      OuterCall(act, rest, CheckOf(V, at + [tag], sub), n);
      SameLifted([act] + rest, CheckOf(V, at + [tag], sub), CheckOf(V, at, c), n);
    }
  }

  /** Every local that a node passes up, in every instance, shows its check. */
  lemma {:induction false} LocalsShow(p: Project, rank: map<string, nat>, root: string, done: map<string, seq<Pending>>, wires: map<string, seq<Wire>>,
                                      V: Values, acts: Activity, at: seq<string>, name: string)
    requires Ranked(p, rank) && PlainNames(p) && forall c | c in done :: Finished(p, rank, done, wires, c)
    requires ProjectRuns(p, rank, root, done, wires, V, acts) && name in done && IsInstance(p, root, at, name)
    ensures forall k | 0 <= k < |done[name]| :: ShowsCheck(p, V, acts, at, name, done[name][k])
    decreases rank[name], 1, 0
  {
    assert Finished(p, rank, done, wires, name);
    GatheredShow(p, rank, root, done, wires, V, acts, at, name, |wires[name]|);
    assert wires[name][..|wires[name]|] == wires[name];
  }

  lemma {:induction false} GatheredShow(p: Project, rank: map<string, nat>, root: string, done: map<string, seq<Pending>>, wires: map<string, seq<Wire>>,
                                        V: Values, acts: Activity, at: seq<string>, name: string, n: nat)
    requires Ranked(p, rank) && PlainNames(p) && forall c | c in done :: Finished(p, rank, done, wires, c)
    requires ProjectRuns(p, rank, root, done, wires, V, acts) && name in done && IsInstance(p, root, at, name)
    requires name in p && name in wires && n <= |wires[name]| <= |p[name].calls| && WiresFit(p, name, wires[name][..n], done)
    ensures forall k | 0 <= k < |Gathered(p, name, wires[name][..n], done)| ::
              ShowsCheck(p, V, acts, at, name, Gathered(p, name, wires[name][..n], done)[k])
    decreases rank[name], 0, n
  {
    assert Finished(p, rank, done, wires, name);
    if n == 0 {
      forall k | 0 <= k < |OwnPending(name, p[name].checks)| ensures ShowsCheck(p, V, acts, at, name, OwnPending(name, p[name].checks)[k]) {
        OwnShows(p, V, acts, at, name, OwnPending(name, p[name].checks)[k]);
      }
    } else {
      var i := n - 1;
      assert wires[name][..n][..i] == wires[name][..i] && wires[name][..n][i] == wires[name][i];
      GatheredShow(p, rank, root, done, wires, V, acts, at, name, i);
      CallShows(p, rank, root, done, wires, V, acts, at, name, i);
    }
  }

  lemma {:induction false} CallShows(p: Project, rank: map<string, nat>, root: string, done: map<string, seq<Pending>>, wires: map<string, seq<Wire>>,
                                     V: Values, acts: Activity, at: seq<string>, name: string, i: nat)
    requires Ranked(p, rank) && PlainNames(p) && forall c | c in done :: Finished(p, rank, done, wires, c)
    requires ProjectRuns(p, rank, root, done, wires, V, acts) && name in done && IsInstance(p, root, at, name)
    requires name in p && name in wires && i < |wires[name]| <= |p[name].calls| && WireFits(p, p[name].calls[i], wires[name][i], done)
    ensures var more := PassedBy(p, name, i, wires[name][i], done);
      forall k | 0 <= k < |more| :: ShowsCheck(p, V, acts, at, name, more[k])
    decreases rank[name], 0, i
  {
    hide ShowsCheck, Gathered, Unfold, DoneRight, DistinctLocals;
    var callee := p[name].calls[i].callee;
    assert RankedCalls(p[name].calls, rank, name);
    if callee in p {
      InstanceBelow(p, root, at, name, i);
      LocalsShow(p, rank, root, done, wires, V, acts, at + [Tag(p[name].calls, i)], callee);
      assert Finished(p, rank, done, wires, name) && InstanceRuns(p, V, acts, at, name, wires[name], done);
      var more := PassedBy(p, name, i, wires[name][i], done);
      forall k | 0 <= k < |more| ensures ShowsCheck(p, V, acts, at, name, more[k]) {
        PassedShows(p, V, acts, at, name, i, wires[name][i], done, k);
      }
    }
  }

  /** In every run of the rewritten project, a local of the root is always true
      exactly when its check is true on every tick of its instance. */
  lemma RootSaysAll(p: Project, rank: map<string, nat>, root: string, done: map<string, seq<Pending>>, wires: map<string, seq<Wire>>,
                    V: Values, acts: Activity, k: nat)
    requires Ranked(p, rank) && PlainNames(p) && forall c | c in done :: Finished(p, rank, done, wires, c)
    requires ProjectRuns(p, rank, root, done, wires, V, acts) && root in done && k < |done[root]|
    ensures var c := done[root][k];
      (forall n: nat :: V([], n, c.local)) <==> TrueOnTicks(Along(p, [], root, c.path, acts), CheckOf(V, [], c))
  {
    assert Finished(p, rank, done, wires, root);
    assert IsInstance(p, root, [], root);
    LocalsShow(p, rank, root, done, wires, V, acts, [], root);
    var c := done[root][k];
    var streams := Along(p, [], root, c.path, acts);
    AlwaysAtRoot(streams, CheckOf(V, [], c));
    assert forall n: nat :: ShowsCheckAt(p, V, acts, [], root, c, n);
    if AlwaysTrue(Lifted(streams, CheckOf(V, [], c))) {
      forall n: nat ensures V([], n, c.local) { assert ShowsCheckAt(p, V, acts, [], root, c, n); }
    }
    if forall n: nat :: V([], n, c.local) {
      forall n: nat ensures Lifted(streams, CheckOf(V, [], c))(n) { assert ShowsCheckAt(p, V, acts, [], root, c, n); }
    }
  }
}
