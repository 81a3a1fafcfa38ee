/** Passing runtime-error checks up through call instances: which checks the
    root ends up with, and what it means that they are true there. */
module Propagate {
  import opened Options
  import opened FreshNames
  import opened Graphs

  /** One call equation; `clocked` when the instance is conditionally activated. */
  datatype Call = Call(callee: string, clocked: bool)

  /** A node after instrumentation: its own check locals, its calls in order, and its names. */
  datatype Node = Node(checks: seq<string>, calls: seq<Call>, names: set<string>)

  type Project = map<string, Node>

  /** A check on its way up: the local holding it, and where it comes from. */
  datatype Pending = Pending(local: string, node: string, check: string, path: seq<string>)

  /** Where a check comes from: the instance path from the root, the node, its check. */
  datatype Origin = Origin(path: seq<string>, node: string, check: string)

  function OriginOf(c: Pending): Origin {
    Origin(c.path, c.node, c.check)
  }

  function Origins(cs: seq<Pending>): (os: seq<Origin>)
    ensures |os| == |cs|
  {
    seq(|cs|, i requires 0 <= i < |cs| => OriginOf(cs[i]))
  }

  /** Calls cannot be cyclic: callees rank below their callers. */
  ghost predicate Ranked(p: Project, rank: map<string, nat>) {
    forall name | name in p :: RankedCalls(p[name].calls, rank, name)
  }

  ghost predicate RankedCalls(calls: seq<Call>, rank: map<string, nat>, name: string) {
    name in rank && forall i | 0 <= i < |calls| :: calls[i].callee in rank && rank[calls[i].callee] < rank[name]
  }

  // ---------------------------------------------------------------- the unfolded call tree

  /** How many of the first `i` calls are to `callee`. */
  function Earlier(calls: seq<Call>, callee: string, i: nat): nat
    requires i <= |calls|
  {
    if i == 0 then 0 else Earlier(calls, callee, i-1) + if calls[i-1].callee == callee then 1 else 0
  }

  /** `Candidate#3`: the third call to `Candidate` in its caller. */
  function Tag(calls: seq<Call>, i: nat): string
    requires i < |calls|
  {
    calls[i].callee + "#" + Numeral(Earlier(calls, calls[i].callee, i) + 1)
  }

  function Under(tag: string, os: seq<Origin>): (r: seq<Origin>)
    ensures |r| == |os|
  {
    seq(|os|, i requires 0 <= i < |os| => os[i].(path := [tag] + os[i].path))
  }

  function Own(name: string, checks: seq<string>): (r: seq<Origin>)
    ensures |r| == |checks|
  {
    seq(|checks|, i requires 0 <= i < |checks| => Origin([], name, checks[i]))
  }

  /** Every check of every instance in the call tree under `name`. */
  ghost function Unfold(p: Project, rank: map<string, nat>, name: string): seq<Origin>
    requires Ranked(p, rank) && name in p
    decreases rank[name], 1, 0
  {
    Own(name, p[name].checks) + UnfoldCalls(p, rank, name, |p[name].calls|)
  }

  ghost function UnfoldCalls(p: Project, rank: map<string, nat>, name: string, i: nat): seq<Origin>
    requires Ranked(p, rank) && name in p && i <= |p[name].calls|
    decreases rank[name], 0, i + 1
  {
    if i == 0 then [] else
    UnfoldCalls(p, rank, name, i-1) + CallOrigins(p, rank, name, i-1)
  }

  ghost function CallOrigins(p: Project, rank: map<string, nat>, name: string, i: nat): seq<Origin>
    requires Ranked(p, rank) && name in p && i < |p[name].calls|
    decreases rank[name], 0, 0
  {
    var calls := p[name].calls;
    assert RankedCalls(calls, rank, name);
    if calls[i].callee in p then Under(Tag(calls, i), Unfold(p, rank, calls[i].callee)) else []
  }

  /** The i-th call has the tag. */
  predicate Tagged(calls: seq<Call>, tag: string, i: int) {
    0 <= i < |calls| && Tag(calls, i) == tag
  }

  /** `path` leads from `name` through calls to an instance of `node`. */
  ghost predicate IsInstance(p: Project, name: string, path: seq<string>, node: string)
    decreases |path|
  {
    name in p &&
    if path == [] then node == name
    else exists i :: Tagged(p[name].calls, path[0], i) && IsInstance(p, p[name].calls[i].callee, path[1..], node)
  }

  /** The i-th call is the first step of the path. */
  ghost predicate StepsInto(p: Project, name: string, path: seq<string>, node: string, i: int)
    requires name in p && path != []
  {
    Tagged(p[name].calls, path[0], i) && IsInstance(p, p[name].calls[i].callee, path[1..], node)
  }

  /** Names without the character that tags use. */
  ghost predicate PlainNames(p: Project) {
    forall name, i | name in p && 0 <= i < |p[name].calls| :: '#' !in p[name].calls[i].callee
  }

  lemma {:induction false} EarlierGrows(calls: seq<Call>, callee: string, i: nat, j: nat)
    requires i <= j <= |calls|
    ensures Earlier(calls, callee, i) <= Earlier(calls, callee, j)
    ensures i < j && calls[i].callee == callee ==> Earlier(calls, callee, i) < Earlier(calls, callee, j)
    decreases j
  {
    if i < j { EarlierGrows(calls, callee, i, j-1); }
  }

  /** Different calls of a node have different tags. */
  lemma TagsDiffer(calls: seq<Call>, i: nat, j: nat)
    requires i < j < |calls| && '#' !in calls[i].callee && '#' !in calls[j].callee
    ensures Tag(calls, i) != Tag(calls, j)
  {
    var a, b := Earlier(calls, calls[i].callee, i) + 1, Earlier(calls, calls[j].callee, j) + 1;
    EarlierGrows(calls, calls[i].callee, i, j);
    if Tag(calls, i) == Tag(calls, j) {
      SplitFirst('#', calls[i].callee, Numeral(a), calls[j].callee, Numeral(b));
      NumeralInjective(a, b);
    }
  }

  // ---------------------------------------------------------------- exactly the instances, each once

  ghost predicate Plain(name: string, calls: seq<Call>) {
    forall i | 0 <= i < |calls| :: '#' !in calls[i].callee
  }

  lemma {:induction false} UnfoldMembers(p: Project, rank: map<string, nat>, name: string, o: Origin)
    requires Ranked(p, rank) && name in p
    ensures o in Unfold(p, rank, name) <==> IsInstance(p, name, o.path, o.node) && o.node in p && o.check in p[o.node].checks
    decreases rank[name], 1, 0
  {
    var calls := p[name].calls;
    UnfoldCallMembers(p, rank, name, |calls|, o);
    var own := Own(name, p[name].checks);
    if o in own {
      var i :| 0 <= i < |own| && own[i] == o;
      assert p[name].checks[i] in p[name].checks;
    }
    if o.path == [] && o.node == name && o.check in p[name].checks {
      var i :| 0 <= i < |p[name].checks| && p[name].checks[i] == o.check;
      assert own[i] == o;
    }
    if o.path != [] {
      if j :| 0 <= j < |calls| && CallMember(p, name, o, j) {
        assert StepsInto(p, name, o.path, o.node, j);
      }
      if IsInstance(p, name, o.path, o.node) && o.node in p && o.check in p[o.node].checks {
        var j :| Tagged(calls, o.path[0], j) && IsInstance(p, calls[j].callee, o.path[1..], o.node);
        assert CallMember(p, name, o, j);
      }
    }
  }

  ghost predicate CallMember(p: Project, name: string, o: Origin, j: nat)
    requires name in p && j < |p[name].calls|
  {
    o.path != [] && StepsInto(p, name, o.path, o.node, j) && o.node in p && o.check in p[o.node].checks
  }

  lemma {:induction false} UnfoldCallMembers(p: Project, rank: map<string, nat>, name: string, i: nat, o: Origin)
    requires Ranked(p, rank) && name in p && i <= |p[name].calls|
    ensures o in UnfoldCalls(p, rank, name, i) <==> exists j :: 0 <= j < i && CallMember(p, name, o, j)
    decreases rank[name], 0, i + 1
  {
    if i > 0 {
      UnfoldCallMembers(p, rank, name, i-1, o);
      UnfoldCallMember(p, rank, name, i-1, o);
      if CallMember(p, name, o, i-1) {
        assert exists j :: 0 <= j < i && CallMember(p, name, o, j);
      }
    }
  }

  lemma {:induction false} UnfoldCallMember(p: Project, rank: map<string, nat>, name: string, i: nat, o: Origin)
    requires Ranked(p, rank) && name in p && i < |p[name].calls|
    ensures o in CallOrigins(p, rank, name, i) <==> CallMember(p, name, o, i)
    decreases rank[name], 0, 0
  {
    var calls := p[name].calls;
    assert RankedCalls(calls, rank, name);
    if calls[i].callee in p {
      if o.path != [] {
        UnfoldMembers(p, rank, calls[i].callee, o.(path := o.path[1..]));
      }
      UnderMembers(Tag(calls, i), Unfold(p, rank, calls[i].callee), o);
    }
  }

  lemma UnderMembers(tag: string, os: seq<Origin>, o: Origin)
    ensures o in Under(tag, os) <==> o.path != [] && o.path[0] == tag && o.(path := o.path[1..]) in os
  {
    var r := Under(tag, os);
    if o in r {
      var i :| 0 <= i < |r| && r[i] == o;
      assert o.path[1..] == os[i].path;
      assert o.(path := o.path[1..]) == os[i];
    }
    if o.path != [] && o.path[0] == tag && o.(path := o.path[1..]) in os {
      var i :| 0 <= i < |os| && os[i] == o.(path := o.path[1..]);
      assert r[i].path == o.path;
      assert r[i] == o;
    }
  }

  ghost predicate NoRepeats(os: seq<Origin>) {
    forall i, j | 0 <= i < j < |os| :: os[i] != os[j]
  }

  ghost predicate DistinctChecks(p: Project) {
    forall name | name in p :: forall i, j | 0 <= i < j < |p[name].checks| :: p[name].checks[i] != p[name].checks[j]
  }

  lemma NoRepeatsAppend(a: seq<Origin>, b: seq<Origin>)
    requires NoRepeats(a) && NoRepeats(b) && forall o | o in a :: o !in b
    ensures NoRepeats(a + b)
  {
    var c := a + b;
    forall i, j | 0 <= i < j < |c| ensures c[i] != c[j] {
      if i < |a| && j >= |a| { assert c[i] in a && c[j] in b; }
    }
  }

  /** No check of an instance is listed twice. */
  lemma {:induction false} UnfoldOnce(p: Project, rank: map<string, nat>, name: string)
    requires Ranked(p, rank) && name in p && PlainNames(p) && DistinctChecks(p)
    ensures NoRepeats(Unfold(p, rank, name))
    decreases rank[name], 1, 0
  {
    var calls := p[name].calls;
    var own := Own(name, p[name].checks);
    UnfoldCallsOnce(p, rank, name, |calls|);
    forall o | o in own ensures o !in UnfoldCalls(p, rank, name, |calls|) {
      UnfoldCallMembers(p, rank, name, |calls|, o);
    }
    NoRepeatsAppend(own, UnfoldCalls(p, rank, name, |calls|));
  }

  lemma {:induction false} UnfoldCallsOnce(p: Project, rank: map<string, nat>, name: string, i: nat)
    requires Ranked(p, rank) && name in p && PlainNames(p) && DistinctChecks(p) && i <= |p[name].calls|
    ensures NoRepeats(UnfoldCalls(p, rank, name, i))
    decreases rank[name], 0, i
  {
    if i > 0 {
      var calls := p[name].calls;
      assert RankedCalls(calls, rank, name);
      var before, more := UnfoldCalls(p, rank, name, i-1), CallOrigins(p, rank, name, i-1);
      UnfoldCallsOnce(p, rank, name, i-1);
      if calls[i-1].callee in p {
        UnfoldOnce(p, rank, calls[i-1].callee);
        UnderOnce(Tag(calls, i-1), Unfold(p, rank, calls[i-1].callee));
      }
      forall o | o in before ensures o !in more {
        UnfoldCallMembers(p, rank, name, i-1, o);
        UnfoldCallMember(p, rank, name, i-1, o);
        var j :| 0 <= j < i-1 && CallMember(p, name, o, j);
        TagsDiffer(calls, j, i-1);
      }
      NoRepeatsAppend(before, more);
    }
  }

  lemma UnderOnce(tag: string, os: seq<Origin>)
    requires NoRepeats(os)
    ensures NoRepeats(Under(tag, os))
  {
    var r := Under(tag, os);
    forall i, j | 0 <= i < j < |r| ensures r[i] != r[j] {
      assert r[i].path[1..] == os[i].path && r[j].path[1..] == os[j].path;
      assert os[i] != os[j];
    }
  }

  // ---------------------------------------------------------------- callee-first order

  /** Every callee that is a node of the project is already listed. */
  ghost predicate CalleesListed(p: Project, name: string, order: seq<string>)
    requires name in p
  {
    forall i | 0 <= i < |p[name].calls| && p[name].calls[i].callee in p :: p[name].calls[i].callee in order
  }

  ghost predicate CalleeFirst(p: Project, order: seq<string>) {
    && Distinct(order)
    && (forall k | 0 <= k < |order| :: order[k] in p && CalleesListed(p, order[k], order[..k]))
  }

  /** What is seen but not listed yet is being visited: it ranks above `r`. */
  ghost predicate Visiting(p: Project, rank: map<string, nat>, seen: set<string>, order: seq<string>, r: nat) {
    && (forall x | x in order :: x in seen)
    && (forall x | x in seen && x in p && x !in order :: x in rank && rank[x] > r)
  }

  lemma ListedMore(p: Project, name: string, order: seq<string>, more: seq<string>)
    requires name in p && CalleesListed(p, name, order) && order <= more
    ensures CalleesListed(p, name, more)
  {
  }

  lemma CalleeFirstSnoc(p: Project, order: seq<string>, name: string)
    requires CalleeFirst(p, order) && name in p && name !in order && CalleesListed(p, name, order)
    ensures CalleeFirst(p, order + [name])
  {
    var more := order + [name];
    forall k | 0 <= k < |more| ensures more[k] in p && CalleesListed(p, more[k], more[..k]) {
      if k < |order| { assert more[..k] == order[..k] && more[k] == order[k]; } else { assert more[..k] == order; }
    }
  }

  /** Depth first: a node is listed after everything it calls. */
  method Visit(p: Project, ghost rank: map<string, nat>, name: string, seen: set<string>, order: seq<string>, ghost r: nat)
    returns (seen': set<string>, order': seq<string>)
    requires Ranked(p, rank) && CalleeFirst(p, order) && Visiting(p, rank, seen, order, r)
    requires name in p ==> name in rank && rank[name] <= r
    ensures CalleeFirst(p, order') && order <= order' && seen <= seen'
    ensures forall x | x in order' :: x in seen' && (x in order || x !in seen)
    ensures forall x | x in seen' && x in p && x !in order' :: x in seen && x !in order
    ensures name in p ==> name in order'
    decreases r
  {
    if name in seen { return seen, order; }
    seen' := seen + {name};
    order' := order;
    if name !in p { return; }
    var calls := p[name].calls;
    assert RankedCalls(calls, rank, name);
    for i := 0 to |calls|
      invariant CalleeFirst(p, order') && order <= order' && seen + {name} <= seen'
      invariant name !in order' && forall x | x in order' :: x in seen' && (x in order || x !in seen)
      invariant forall x | x in seen' && x in p && x !in order' :: x == name || (x in seen && x !in order)
      invariant forall j | 0 <= j < i && calls[j].callee in p :: calls[j].callee in order'
    {
      seen', order' := Visit(p, rank, calls[i].callee, seen', order', rank[name] - 1);
    }
    CalleeFirstSnoc(p, order', name);
    order' := order' + [name];
  }

  // ---------------------------------------------------------------- propagation

  ghost predicate DistinctLocals(cs: seq<Pending>) {
    forall i, j | 0 <= i < j < |cs| :: cs[i].local != cs[j].local
  }

  ghost predicate LocalsIn(cs: seq<Pending>, names: set<string>) {
    forall i | 0 <= i < |cs| :: cs[i].local in names
  }

  /** What a call equation gets: the locals of its further outputs, and for a
      conditional activation their values before its first tick. */
  datatype Wire = Wire(extra: seq<string>, defaults: seq<bool>)

  function Defaults(clocked: bool, n: nat): (r: seq<bool>)
    ensures |r| == if clocked then n else 0
    ensures forall i | 0 <= i < |r| :: r[i]
  {
    if clocked then seq(n, _ => true) else []
  }

  /** The callee's checks, as seen through the further outputs of one call. */
  function Passed(sub: seq<Pending>, tag: string, extra: seq<string>): (r: seq<Pending>)
    requires |extra| == |sub|
    ensures |r| == |sub|
  {
    seq(|sub|, j requires 0 <= j < |sub| => Pending(extra[j], sub[j].node, sub[j].check, [tag] + sub[j].path))
  }

  /** A fresh local for each of the callee's checks. */
  method PassUp(sub: seq<Pending>, tag: string, mine: seq<Pending>, taken: set<string>)
    returns (more: seq<Pending>, extra: seq<string>, taken': set<string>)
    requires DistinctLocals(mine) && LocalsIn(mine, taken)
    ensures DistinctLocals(more) && LocalsIn(more, taken') && taken <= taken'
    ensures |extra| == |sub| && more == mine + Passed(sub, tag, extra)
  {
    more, extra, taken' := mine, [], taken;
    for i := 0 to |sub|
      invariant DistinctLocals(more) && LocalsIn(more, taken') && taken <= taken'
      invariant |extra| == i && more == mine + Passed(sub[..i], tag, extra)
    {
      var local := PickFresh("rtp", taken');
      assert Passed(sub[..i+1], tag, extra + [local]) ==
             Passed(sub[..i], tag, extra) + [Pending(local, sub[i].node, sub[i].check, [tag] + sub[i].path)];
      more := more + [Pending(local, sub[i].node, sub[i].check, [tag] + sub[i].path)];
      extra := extra + [local];
      taken' := taken' + {local};
    }
    assert sub[..|sub|] == sub;
  }

  lemma PassedOrigins(mine: seq<Pending>, sub: seq<Pending>, tag: string, extra: seq<string>)
    requires |extra| == |sub|
    ensures Origins(mine + Passed(sub, tag, extra)) == Origins(mine) + Under(tag, Origins(sub))
  {
    var more, all := mine + Passed(sub, tag, extra), Origins(mine) + Under(tag, Origins(sub));
    forall k | 0 <= k < |more| ensures Origins(more)[k] == all[k] {
      if k >= |mine| { assert all[k] == Under(tag, Origins(sub))[k - |mine|]; }
    }
  }

  function OwnPending(name: string, checks: seq<string>): (r: seq<Pending>)
    ensures |r| == |checks|
  {
    seq(|checks|, i requires 0 <= i < |checks| => Pending(checks[i], name, checks[i], []))
  }

  /** The wire of a call to a node of the project carries each of its checks. */
  predicate WireFits(p: Project, call: Call, wire: Wire, done: map<string, seq<Pending>>) {
    && (call.callee in p ==> call.callee in done)
    && |wire.extra| == (if call.callee in p then |done[call.callee]| else 0)
    && wire.defaults == Defaults(call.clocked, |wire.extra|)
  }

  predicate WiresFit(p: Project, name: string, wires: seq<Wire>, done: map<string, seq<Pending>>)
    requires name in p
  {
    |wires| <= |p[name].calls| && forall i | 0 <= i < |wires| :: WireFits(p, p[name].calls[i], wires[i], done)
  }

  /** A node's checks, and those its first calls pass up. */
  function Gathered(p: Project, name: string, wires: seq<Wire>, done: map<string, seq<Pending>>): seq<Pending>
    requires name in p && WiresFit(p, name, wires, done)
  {
    if wires == [] then OwnPending(name, p[name].checks) else
    var i := |wires| - 1;
    Gathered(p, name, wires[..i], done) + PassedBy(p, name, i, wires[i], done)
  }

  function PassedBy(p: Project, name: string, i: nat, wire: Wire, done: map<string, seq<Pending>>): seq<Pending>
    requires name in p && i < |p[name].calls| && WireFits(p, p[name].calls[i], wire, done)
  {
    if p[name].calls[i].callee in p then Passed(done[p[name].calls[i].callee], Tag(p[name].calls, i), wire.extra) else []
  }

  ghost predicate DoneRight(p: Project, rank: map<string, nat>, done: map<string, seq<Pending>>, name: string)
    requires Ranked(p, rank)
  {
    name in p && name in done && Origins(done[name]) == Unfold(p, rank, name)
  }

  /** What the counter of instances holds for a callee. */
  function Counted(instances: map<string, nat>, callee: string): nat {
    if callee in instances then instances[callee] else 0
  }

  lemma UnfoldNone(p: Project, rank: map<string, nat>, name: string, own: seq<Origin>)
    requires Ranked(p, rank) && name in p
    ensures own + UnfoldCalls(p, rank, name, 0) == own
  {
  }

  lemma UnfoldNext(p: Project, rank: map<string, nat>, name: string, i: nat, own: seq<Origin>)
    requires Ranked(p, rank) && name in p && i < |p[name].calls|
    ensures
      var callee := p[name].calls[i].callee;
      var before := own + UnfoldCalls(p, rank, name, i);
      own + UnfoldCalls(p, rank, name, i+1) ==
        if callee in p then before + Under(Tag(p[name].calls, i), Unfold(p, rank, callee)) else before
  {
    hide Unfold, Tag, Under;
    assert RankedCalls(p[name].calls, rank, name);
    assert UnfoldCalls(p, rank, name, i) + [] == UnfoldCalls(p, rank, name, i);
  }

  /** A node's own checks, then those of each of its call instances, and the
      wires that bring them. */
  method PropagateNode(p: Project, ghost rank: map<string, nat>, name: string, done: map<string, seq<Pending>>)
    returns (mine: seq<Pending>, wires: seq<Wire>)
    requires Ranked(p, rank) && name in p && DistinctChecks(p)
    requires forall i | 0 <= i < |p[name].checks| :: p[name].checks[i] in p[name].names
    requires forall c | c in done :: DoneRight(p, rank, done, c)
    requires forall i | 0 <= i < |p[name].calls| && p[name].calls[i].callee in p :: p[name].calls[i].callee in done
    ensures Origins(mine) == Unfold(p, rank, name) && DistinctLocals(mine)
    ensures WiresFit(p, name, wires, done) && |wires| == |p[name].calls| && mine == Gathered(p, name, wires, done)
  {
    hide UnfoldCalls, CallOrigins, Under, Passed, Unfold, Gathered, WiresFit, DistinctLocals, LocalsIn;
    var checks := p[name].checks;
    var calls := p[name].calls;
    mine, wires := OwnPending(name, checks), [];
    var taken := p[name].names;
    OwnGathered(p, name, done);
    var instances: map<string, nat> := map[];
    for i := 0 to |calls|
      invariant DistinctLocals(mine) && LocalsIn(mine, taken)
      invariant forall c :: Counted(instances, c) == Earlier(calls, c, i)
      invariant |wires| == i && WiresFit(p, name, wires, done) && mine == Gathered(p, name, wires, done)
    {
      var callee := calls[i].callee;
      var k := Counted(instances, callee) + 1;
      instances := instances[callee := k];
      assert Tag(calls, i) == callee + "#" + Numeral(k);
      var extra: seq<string> := [];
      if callee in done {
        assert DoneRight(p, rank, done, callee);
        mine, extra, taken := PassUp(done[callee], callee + "#" + Numeral(k), mine, taken);
      }
      GatheredNext(p, name, wires, Wire(extra, Defaults(calls[i].clocked, |extra|)), done);
      wires := wires + [Wire(extra, Defaults(calls[i].clocked, |extra|))];
    }
    GatheredOrigins(p, rank, name, wires, done);
    WholeUnfold(p, rank, name);
  }

  lemma OwnGathered(p: Project, name: string, done: map<string, seq<Pending>>)
    requires name in p
    requires forall i, j | 0 <= i < j < |p[name].checks| :: p[name].checks[i] != p[name].checks[j]
    requires forall i | 0 <= i < |p[name].checks| :: p[name].checks[i] in p[name].names
    ensures WiresFit(p, name, [], done) && Gathered(p, name, [], done) == OwnPending(name, p[name].checks)
    ensures DistinctLocals(OwnPending(name, p[name].checks)) && LocalsIn(OwnPending(name, p[name].checks), p[name].names)
  {
  }

  lemma GatheredNext(p: Project, name: string, wires: seq<Wire>, wire: Wire, done: map<string, seq<Pending>>)
    requires name in p && WiresFit(p, name, wires, done) && |wires| < |p[name].calls| && WireFits(p, p[name].calls[|wires|], wire, done)
    ensures WiresFit(p, name, wires + [wire], done)
    ensures Gathered(p, name, wires + [wire], done) == Gathered(p, name, wires, done) + PassedBy(p, name, |wires|, wire, done)
  {
    assert (wires + [wire])[..|wires|] == wires;
  }

  lemma WholeUnfold(p: Project, rank: map<string, nat>, name: string)
    requires Ranked(p, rank) && name in p
    ensures Unfold(p, rank, name) == Own(name, p[name].checks) + UnfoldCalls(p, rank, name, |p[name].calls|)
  {
  }

  /** What is gathered are the checks of the unfolded calls, in order. */
  lemma {:induction false} GatheredOrigins(p: Project, rank: map<string, nat>, name: string, wires: seq<Wire>, done: map<string, seq<Pending>>)
    requires Ranked(p, rank) && name in p && WiresFit(p, name, wires, done)
    requires forall c | c in done :: DoneRight(p, rank, done, c)
    ensures Origins(Gathered(p, name, wires, done)) == Own(name, p[name].checks) + UnfoldCalls(p, rank, name, |wires|)
    decreases wires
  {
    hide Under, Passed, UnfoldCalls, Unfold, Tag;
    var own := Own(name, p[name].checks);
    if wires == [] {
      UnfoldNone(p, rank, name, own);
      assert Origins(OwnPending(name, p[name].checks)) == own;
    } else {
      var i := |wires| - 1;
      var callee := p[name].calls[i].callee;
      assert WireFits(p, p[name].calls[i], wires[i], done);
      GatheredOrigins(p, rank, name, wires[..i], done);
      UnfoldNext(p, rank, name, i, own);
      var before := Gathered(p, name, wires[..i], done);
      if callee in p {
        assert DoneRight(p, rank, done, callee);
        PassedOrigins(before, done[callee], Tag(p[name].calls, i), wires[i].extra);
      } else {
        assert before + [] == before;
      }
    }
  }

  /** A node is finished: its checks are those of its call tree, and those its
      wires bring. */
  ghost predicate Finished(p: Project, rank: map<string, nat>, done: map<string, seq<Pending>>, wires: map<string, seq<Wire>>, name: string)
    requires Ranked(p, rank)
  {
    && DoneRight(p, rank, done, name) && DistinctLocals(done[name]) && name in wires
    && WiresFit(p, name, wires[name], done) && |wires[name]| == |p[name].calls|
    && done[name] == Gathered(p, name, wires[name], done)
  }

  /** Finishing another node changes nothing for those finished. */
  lemma {:induction false} GatheredMore(p: Project, name: string, wires: seq<Wire>, done: map<string, seq<Pending>>, more: map<string, seq<Pending>>)
    requires name in p && WiresFit(p, name, wires, done) && forall c | c in done :: c in more && more[c] == done[c]
    ensures WiresFit(p, name, wires, more) && Gathered(p, name, wires, more) == Gathered(p, name, wires, done)
    decreases wires
  {
    hide Passed;
    forall i | 0 <= i < |wires| ensures WireFits(p, p[name].calls[i], wires[i], more) {
      assert WireFits(p, p[name].calls[i], wires[i], done);
    }
    if wires != [] {
      assert WireFits(p, p[name].calls[|wires|-1], wires[|wires|-1], done);
      GatheredMore(p, name, wires[..|wires|-1], done, more);
    }
  }

  lemma FinishedMore(p: Project, rank: map<string, nat>, done: map<string, seq<Pending>>, wires: map<string, seq<Wire>>,
                     name: string, mine: seq<Pending>, wired: seq<Wire>,
                     more: map<string, seq<Pending>>, moreWires: map<string, seq<Wire>>)
    requires Ranked(p, rank) && (forall c | c in done :: Finished(p, rank, done, wires, c)) && name in p && name !in done
    requires Origins(mine) == Unfold(p, rank, name) && DistinctLocals(mine)
    requires WiresFit(p, name, wired, done) && |wired| == |p[name].calls| && mine == Gathered(p, name, wired, done)
    requires more == done[name := mine] && moreWires == wires[name := wired]
    ensures forall c | c in more :: Finished(p, rank, more, moreWires, c)
  {
    hide Gathered, WiresFit, Unfold, Origins, DistinctLocals;
    GatheredMore(p, name, wired, done, more);
    forall c | c in more ensures Finished(p, rank, more, moreWires, c) {
      if c != name {
        assert Finished(p, rank, done, wires, c);
        GatheredMore(p, c, wires[c], done, more);
      }
    }
  }

  /** Every node's checks passed up to the root: exactly the checks of the
      instances in the unfolded call tree, in its order. The locals `done[c]`
      are the further outputs of each other node `c`. */
  method PropagateAll(p: Project, ghost rank: map<string, nat>, root: string)
    returns (result: seq<Pending>, done: map<string, seq<Pending>>, wires: map<string, seq<Wire>>)
    requires Ranked(p, rank) && DistinctChecks(p)
    requires forall name | name in p :: forall i | 0 <= i < |p[name].checks| :: p[name].checks[i] in p[name].names
    ensures root in p ==> Origins(result) == Unfold(p, rank, root) && DistinctLocals(result)
    ensures root in p ==> root in done && result == done[root]
    ensures forall c | c in done :: Finished(p, rank, done, wires, c)
    ensures root !in p ==> result == []
  {
    hide Unfold, Gathered, Ranked, WiresFit, DistinctLocals, Origins, Finished;
    done, wires := map[], map[];
    if root !in p { return [], done, wires; }
    RankedRoot(p, rank, root);
    var _, order := Visit(p, rank, root, {}, [], rank[root]);
    for k := 0 to |order|
      invariant forall c :: c in done <==> c in order[..k]
      invariant forall c | c in done :: Finished(p, rank, done, wires, c)
    {
      assert order[k] in p && CalleesListed(p, order[k], order[..k]);
      FinishedRight(p, rank, done, wires);
      var mine, wired := PropagateNode(p, rank, order[k], done);
      assert order[..k+1] == order[..k] + [order[k]];
      ghost var before, was := done, wires;
      done, wires := done[order[k] := mine], wires[order[k] := wired];
      FinishedMore(p, rank, before, was, order[k], mine, wired, done, wires);
    }
    assert order[..|order|] == order;
    FinishedRight(p, rank, done, wires);
    result := done[root];
  }

  lemma FinishedRight(p: Project, rank: map<string, nat>, done: map<string, seq<Pending>>, wires: map<string, seq<Wire>>)
    requires Ranked(p, rank) && forall c | c in done :: Finished(p, rank, done, wires, c)
    ensures forall c | c in done :: DoneRight(p, rank, done, c) && DistinctLocals(done[c])
  {
    hide Gathered, WiresFit, Unfold, Origins, DistinctLocals;
  }

  lemma RankedRoot(p: Project, rank: map<string, nat>, root: string)
    requires Ranked(p, rank) && root in p
    ensures root in rank
  {
    assert RankedCalls(p[root].calls, rank, root);
  }

  /** The root ends up with each check of each instance exactly once. */
  lemma EachInstanceOnce(p: Project, rank: map<string, nat>, root: string, result: seq<Pending>, o: Origin)
    requires Ranked(p, rank) && root in p && PlainNames(p) && DistinctChecks(p)
    requires Origins(result) == Unfold(p, rank, root)
    ensures (exists i :: 0 <= i < |result| && OriginOf(result[i]) == o) <==>
            IsInstance(p, root, o.path, o.node) && o.node in p && o.check in p[o.node].checks
    ensures forall i, j | 0 <= i < j < |result| :: OriginOf(result[i]) != OriginOf(result[j])
  {
    UnfoldMembers(p, rank, root, o);
    UnfoldOnce(p, rank, root);
    var os := Origins(result);
    if o in os {
      var i :| 0 <= i < |os| && os[i] == o;
      assert OriginOf(result[i]) == o;
    }
    if i :| 0 <= i < |result| && OriginOf(result[i]) == o {
      assert os[i] == o;
    }
    forall i, j | 0 <= i < j < |result| ensures OriginOf(result[i]) != OriginOf(result[j]) {
      assert os[i] != os[j];
    }
  }
}
