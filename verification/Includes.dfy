/** Files that name other files, walked depth first. A file may name one that
    cannot be read. */
module Includes {
  import opened Graphs

  /** What each readable file names, in the order it names them. */
  type Includes = map<string, seq<string>>

  ghost predicate Step(inc: Includes, a: string, b: string) {
    a in inc && b in inc[a]
  }

  ghost predicate Path(inc: Includes, p: seq<string>) {
    p != [] && forall i | 0 <= i < |p| - 1 :: Step(inc, p[i], p[i+1])
  }

  ghost predicate Joins(inc: Includes, p: seq<string>, a: string, b: string) {
    Path(inc, p) && p[0] == a && p[|p|-1] == b
  }

  ghost predicate Reaches(inc: Includes, a: string, b: string) {
    exists p :: Joins(inc, p, a, b)
  }

  /** A file reachable from `root` reaches itself by at least one step. */
  ghost predicate Cyclic(inc: Includes, root: string) {
    exists p, a :: |p| >= 2 && Joins(inc, p, a, a) && Reaches(inc, root, a)
  }

  ghost predicate AllReadable(inc: Includes, root: string) {
    forall x | Reaches(inc, root, x) :: x in inc
  }

  lemma ReachesSelf(inc: Includes, a: string)
    ensures Reaches(inc, a, a)
  {
    assert Joins(inc, [a], a, a);
  }

  lemma ReachesNext(inc: Includes, a: string, b: string, c: string)
    requires Reaches(inc, a, b) && Step(inc, b, c)
    ensures Reaches(inc, a, c)
  {
    var p :| Joins(inc, p, a, b);
    assert Joins(inc, p + [c], a, c);
  }

  // ---------------------------------------------------------------- files finished

  ghost predicate FinishedAt(inc: Includes, order: seq<string>, k: nat) {
    k < |order| && order[k] in inc && Elements(inc[order[k]]) <= Elements(order[..k])
  }

  /** Readable files, each once, after all the files it names. */
  ghost predicate Finished(inc: Includes, order: seq<string>) {
    Distinct(order) && forall k | 0 <= k < |order| :: FinishedAt(inc, order, k)
  }

  lemma FinishOne(inc: Includes, order: seq<string>, path: string)
    requires Finished(inc, order) && path in inc && path !in Elements(order)
    requires Elements(inc[path]) <= Elements(order)
    ensures Finished(inc, order + [path]) && Elements(order + [path]) == Elements(order) + {path}
  {
    var more := order + [path];
    forall k | 0 <= k < |more| ensures FinishedAt(inc, more, k) {
      if k < |order| {
        assert FinishedAt(inc, order, k);
        assert more[..k] == order[..k];
      } else {
        assert more[..k] == order;
      }
    }
  }

  lemma FinishedStep(inc: Includes, order: seq<string>, a: string, b: string)
    requires Finished(inc, order) && a in order && Step(inc, a, b)
    ensures b in order
  {
    var k :| 0 <= k < |order| && order[k] == a;
    assert FinishedAt(inc, order, k);
    assert b in Elements(order[..k]);
  }

  lemma {:induction false} FinishedPath(inc: Includes, order: seq<string>, p: seq<string>, n: nat)
    requires Finished(inc, order) && Path(inc, p) && p[0] in order && n < |p|
    ensures p[n] in order
  {
    if n > 0 {
      FinishedPath(inc, order, p, n - 1);
      assert Step(inc, p[n-1], p[n-1+1]);
      FinishedStep(inc, order, p[n-1], p[n]);
    }
  }

  /** Whatever a finished file reaches is finished, and so is readable. */
  lemma FinishedReach(inc: Includes, order: seq<string>, root: string)
    requires Finished(inc, order) && root in order
    ensures forall x | Reaches(inc, root, x) :: x in order
    ensures AllReadable(inc, root)
  {
    forall x | Reaches(inc, root, x) ensures x in order && x in inc {
      var p :| Joins(inc, p, root, x);
      FinishedPath(inc, order, p, |p| - 1);
      var k :| 0 <= k < |order| && order[k] == x;
      assert FinishedAt(inc, order, k);
    }
  }

  /** The finished files as a dependency graph. */
  function Subgraph(inc: Includes, files: set<string>): Graph<string> {
    map x | x in files && x in inc :: Elements(inc[x])
  }

  lemma FinishedTopological(inc: Includes, order: seq<string>)
    requires Finished(inc, order)
    ensures Topological(Subgraph(inc, Elements(order)), order)
  {
    var g := Subgraph(inc, Elements(order));
    forall x | x in Elements(order) ensures x in g {
      var k :| 0 <= k < |order| && order[k] == x;
      assert FinishedAt(inc, order, k);
    }
    assert g.Keys == Elements(order);
    forall k | 0 <= k < |order| ensures ReadyAt(g, order, k) {
      assert order[k] in Elements(order);
      assert FinishedAt(inc, order, k);
    }
  }

  lemma FinishedAcyclic(inc: Includes, order: seq<string>, root: string)
    requires Finished(inc, order) && root in order
    ensures !Cyclic(inc, root)
  {
    FinishedTopological(inc, order);
    var g := Subgraph(inc, Elements(order));
    TopologicalAcyclic(g, order);
    forall p, a | |p| >= 2 && Joins(inc, p, a, a) ensures !Reaches(inc, root, a) {
      if Reaches(inc, root, a) {
        FinishedReach(inc, order, root);
        PathInSubgraph(inc, order, p);
        assert Cycle(g, p);
      }
    }
  }

  lemma PathInSubgraph(inc: Includes, order: seq<string>, p: seq<string>)
    requires Finished(inc, order) && Path(inc, p) && p[0] in order
    ensures Walk(Subgraph(inc, Elements(order)), p)
  {
    var g := Subgraph(inc, Elements(order));
    FinishedTopological(inc, order);
    forall i | 0 <= i < |p| ensures p[i] in g { FinishedPath(inc, order, p, i); }
    forall i | 0 <= i < |p| - 1 ensures Edge(g, p[i], p[i+1]) {
      assert Step(inc, p[i], p[i+1]);
    }
  }

  // ---------------------------------------------------------------- the walk

  /** The chain of files under way from `root`, each named by the one before it,
      and the files finished, all reachable from `root`. */
  ghost predicate Tracked(inc: Includes, root: string, chain: seq<string>, finished: seq<string>) {
    && Chain(inc, root, chain)
    && Finished(inc, finished) && Elements(chain) !! Elements(finished)
    && forall k | 0 <= k < |finished| :: Reaches(inc, root, finished[k])
  }

  ghost predicate Chain(inc: Includes, root: string, chain: seq<string>) {
    Distinct(chain) && (chain != [] ==> Joins(inc, chain, root, chain[|chain|-1]))
  }

  /** `path` may be entered: the walk starts there, or the last file names it. */
  ghost predicate Enters(inc: Includes, root: string, chain: seq<string>, path: string) {
    if chain == [] then path == root else Step(inc, chain[|chain|-1], path)
  }

  lemma ChainReaches(inc: Includes, root: string, chain: seq<string>, path: string)
    requires Chain(inc, root, chain) && Enters(inc, root, chain, path)
    ensures Reaches(inc, root, path)
  {
    ReachesSelf(inc, root);
    if chain != [] { ReachesNext(inc, root, chain[|chain|-1], path); }
  }

  lemma ChainGrows(inc: Includes, root: string, chain: seq<string>, path: string)
    requires Chain(inc, root, chain) && Enters(inc, root, chain, path) && path !in Elements(chain)
    ensures Chain(inc, root, chain + [path]) && Elements(chain + [path]) == Elements(chain) + {path}
  {
    var more := chain + [path];
    if chain != [] {
      forall i | 0 <= i < |more| - 1 ensures Step(inc, more[i], more[i+1]) {
        if i < |chain| - 1 { assert Step(inc, chain[i], chain[i+1]); }
      }
    }
  }

  /** Entering a file that is under way closes a cycle. */
  lemma ChainCloses(inc: Includes, root: string, chain: seq<string>, path: string)
    requires Chain(inc, root, chain) && Enters(inc, root, chain, path) && path in Elements(chain)
    ensures Cyclic(inc, root)
  {
    var i :| 0 <= i < |chain| && chain[i] == path;
    var round := chain[i..] + [path];
    forall k | 0 <= k < |round| - 1 ensures Step(inc, round[k], round[k+1]) {
      if i + k < |chain| - 1 { assert Step(inc, chain[i+k], chain[i+k+1]); }
    }
    assert Joins(inc, round, path, path);
    ChainReaches(inc, root, chain, path);
  }

  lemma NothingTracked(inc: Includes, root: string)
    ensures Tracked(inc, root, [], [])
  {
  }

  /** A file entered is reachable; under way already, it is on a cycle; finished
      already, it can be read; otherwise it is under way from now on. */
  lemma TrackEntered(inc: Includes, root: string, chain: seq<string>, finished: seq<string>, path: string)
    requires Tracked(inc, root, chain, finished) && Enters(inc, root, chain, path)
    ensures Reaches(inc, root, path)
    ensures path in Elements(chain) ==> Cyclic(inc, root)
    ensures path !in Elements(chain) && path !in Elements(finished) ==> Tracked(inc, root, chain + [path], finished)
    ensures Elements(chain + [path]) == Elements(chain) + {path}
  {
    hide Chain, Finished, Cyclic, Reaches;
    ChainReaches(inc, root, chain, path);
    if path in Elements(chain) { ChainCloses(inc, root, chain, path); } else { ChainGrows(inc, root, chain, path); }
  }

  lemma TrackLast(inc: Includes, root: string, chain: seq<string>, finished: seq<string>)
    requires Tracked(inc, root, chain, finished) && chain != []
    ensures Reaches(inc, root, chain[|chain|-1]) && chain[|chain|-1] in Elements(chain)
  {
  }

  lemma TrackedApart(inc: Includes, root: string, chain: seq<string>, finished: seq<string>)
    requires Tracked(inc, root, chain, finished)
    ensures Elements(chain) !! Elements(finished)
  {
  }

  lemma TrackedReached(inc: Includes, root: string, chain: seq<string>, finished: seq<string>, path: string)
    requires Tracked(inc, root, chain, finished) && path in Elements(finished)
    ensures Reaches(inc, root, path)
  {
    hide Reaches;
    var k :| 0 <= k < |finished| && finished[k] == path;
  }

  /** Leaving the last file of the chain unfinished. */
  lemma TrackLeft(inc: Includes, root: string, chain: seq<string>, path: string, first: seq<string>, finished: seq<string>)
    requires Tracked(inc, root, chain, first)
    requires Tracked(inc, root, chain + [path], finished)
    ensures Tracked(inc, root, chain, finished) && path !in Elements(finished)
  {
    hide Chain, Finished, Reaches;
    assert path == (chain + [path])[|chain|];
    assert path in Elements(chain + [path]);
    forall x | x in Elements(chain) ensures x in Elements(chain + [path]) {
      var i :| 0 <= i < |chain| && chain[i] == x;
      assert (chain + [path])[i] == x;
    }
  }

  /** A file is finished after everything it names. */
  lemma TrackFinished(inc: Includes, root: string, chain: seq<string>, finished: seq<string>, path: string)
    requires Tracked(inc, root, chain, finished) && Reaches(inc, root, path)
    requires path in inc && path !in Elements(chain) && path !in Elements(finished)
    requires Elements(inc[path]) <= Elements(finished)
    ensures Tracked(inc, root, chain, finished + [path])
    ensures Elements(finished + [path]) == Elements(finished) + {path}
  {
    hide Chain, Finished, Reaches;
    FinishOne(inc, finished, path);
  }

  /** Once the walk is over, exactly the reachable files are finished, they can
      all be read, and none reaches itself. */
  lemma TrackedExactly(inc: Includes, root: string, finished: seq<string>)
    requires Tracked(inc, root, [], finished) && root in Elements(finished)
    ensures forall x :: x in Elements(finished) <==> Reaches(inc, root, x)
    ensures AllReadable(inc, root) && !Cyclic(inc, root)
  {
    hide Chain, Finished, Reaches, Cyclic, AllReadable;
    FinishedReach(inc, finished, root);
    FinishedAcyclic(inc, finished, root);
  }

  lemma FewerLeft(inc: Includes, waiting: set<string>, path: string)
    requires path in inc && path !in waiting
    ensures |inc.Keys - (waiting + {path})| < |inc.Keys - waiting|
  {
    SubsetCount(inc.Keys - (waiting + {path}), inc.Keys - waiting);
    assert path !in inc.Keys - (waiting + {path});
  }
}
