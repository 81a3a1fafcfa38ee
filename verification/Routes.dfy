/** Routes through files that include others: the numbers of the includes taken
    from the root on. Going depth first means meeting every file at its earliest
    route and the files in the order of those. */
module Routes {
  import opened Options
  import opened Graphs
  import opened Includes
  import opened Positions

  /** The file at the end of a route, if the route exists. */
  function Follow(inc: Includes, root: string, route: Position): Option<string> {
    if route == [] then Some(root) else
    var n := |route| - 1;
    var from := Follow(inc, root, route[..n]);
    if from.Some? && from.value in inc && route[n] < |inc[from.value]| then Some(inc[from.value][route[n]]) else None
  }

  lemma {:induction false} FollowPrefix(inc: Includes, root: string, route: Position, k: nat)
    requires k <= |route| && Follow(inc, root, route).Some?
    ensures Follow(inc, root, route[..k]).Some?
  {
    if k < |route| {
      assert route[..|route|-1][..k] == route[..k];
      FollowPrefix(inc, root, route[..|route|-1], k);
    } else {
      assert route[..k] == route;
    }
  }

  /** Below a finished file all is finished. */
  lemma {:induction false} FollowFinished(inc: Includes, root: string, finished: seq<string>, here: Position, route: Position)
    requires Finished(inc, finished) && here <= route && Follow(inc, root, route).Some?
    requires Follow(inc, root, here).Some? && Follow(inc, root, here).value in finished
    ensures Follow(inc, root, route).value in finished
  {
    if |here| < |route| {
      var from := route[..|route|-1];
      FollowFinished(inc, root, finished, here, from);
      assert Step(inc, Follow(inc, root, from).value, Follow(inc, root, route).value);
      FinishedStep(inc, finished, Follow(inc, root, from).value, Follow(inc, root, route).value);
    } else {
      assert here == route;
    }
  }

  // ---------------------------------------------------------------- files in the order of their routes

  /** The file at the end of `r`, if there is one, was met no later than at `r`. */
  ghost predicate Met(inc: Includes, root: string, files: seq<string>, routes: seq<Position>, r: Position) {
    Follow(inc, root, r).Some? ==> exists k: nat :: MetAt(inc, root, files, routes, r, k)
  }

  ghost predicate MetAt(inc: Includes, root: string, files: seq<string>, routes: seq<Position>, r: Position, k: nat) {
    && k < |files| && k < |routes| && Follow(inc, root, r) == Some(files[k])
    && (routes[k] == r || Precedes(routes[k], r))
  }

  /** The files met so far at their routes, one after the other. */
  ghost predicate Along(inc: Includes, root: string, files: seq<string>, routes: seq<Position>) {
    && |files| == |routes|
    && (forall k | 0 <= k < |files| :: Follow(inc, root, routes[k]) == Some(files[k]))
    && (forall p, q | 0 <= p < q < |files| :: Precedes(routes[p], routes[q]))
  }

  /** All that comes before `here` has been met, and nothing else. */
  ghost predicate MetBefore(inc: Includes, root: string, files: seq<string>, routes: seq<Position>, here: Position) {
    && Along(inc, root, files, routes)
    && (forall k | 0 <= k < |files| :: Precedes(routes[k], here))
    && (forall r: Position | Precedes(r, here) :: Met(inc, root, files, routes, r))
  }

  /** And so has all below `here`. */
  ghost predicate MetThrough(inc: Includes, root: string, files: seq<string>, routes: seq<Position>, here: Position) {
    && Along(inc, root, files, routes)
    && (forall k | 0 <= k < |files| :: Precedes(routes[k], here) || here <= routes[k])
    && (forall r: Position | Precedes(r, here) || here <= r :: Met(inc, root, files, routes, r))
  }

  /** Every file at its earliest route, and the files in the order of these. */
  ghost predicate InRouteOrder(inc: Includes, root: string, files: seq<string>) {
    exists routes :: Earliest(inc, root, files, routes)
  }

  ghost predicate Earliest(inc: Includes, root: string, files: seq<string>, routes: seq<Position>) {
    && Along(inc, root, files, routes)
    && forall k, r: Position | 0 <= k < |files| && Follow(inc, root, r) == Some(files[k]) :: r == routes[k] || Precedes(routes[k], r)
  }

  lemma NothingMet(inc: Includes, root: string)
    ensures MetBefore(inc, root, [], [], [])
  {
  }

  /** A file entered is met at `here`. */
  lemma MeetHere(inc: Includes, root: string, files: seq<string>, routes: seq<Position>, here: Position, file: string)
    requires MetBefore(inc, root, files, routes, here) && Follow(inc, root, here) == Some(file)
    ensures MetBefore(inc, root, files + [file], routes + [here], here + [0])
  {
    hide Follow, Precedes;
    var more, ways := files + [file], routes + [here];
    forall k | 0 <= k < |more| ensures Precedes(ways[k], here + [0]) { BeforeFirst(ways[k], here); }
    forall r: Position | Precedes(r, here + [0]) ensures Met(inc, root, more, ways, r) {
      BeforeFirst(r, here);
      if r == here {
        assert MetAt(inc, root, more, ways, r, |files|);
      } else {
        StillMet(inc, root, files, routes, file, here, r);
      }
    }
  }

  lemma StillMet(inc: Includes, root: string, files: seq<string>, routes: seq<Position>, file: string, here: Position, r: Position)
    requires Met(inc, root, files, routes, r) && |files| == |routes|
    ensures Met(inc, root, files + [file], routes + [here], r)
  {
    hide Follow, Precedes;
    if Follow(inc, root, r).Some? {
      var k: nat :| MetAt(inc, root, files, routes, r, k);
      assert MetAt(inc, root, files + [file], routes + [here], r, k);
    }
  }

  lemma MeetNext(inc: Includes, root: string, files: seq<string>, routes: seq<Position>, here: Position, i: nat)
    requires MetThrough(inc, root, files, routes, here + [i])
    ensures MetBefore(inc, root, files, routes, here + [i+1])
  {
    hide Met, Follow, Precedes;
    forall k | 0 <= k < |files| ensures Precedes(routes[k], here + [i+1]) { BeforeNext(routes[k], here, i); }
    forall r: Position | Precedes(r, here + [i+1]) ensures Met(inc, root, files, routes, r) { BeforeNext(r, here, i); }
  }

  /** After its last include all below a file has been met. */
  lemma MeetEnd(inc: Includes, root: string, files: seq<string>, routes: seq<Position>, here: Position)
    requires Follow(inc, root, here).Some? && Follow(inc, root, here).value in inc
    requires MetBefore(inc, root, files, routes, here + [|inc[Follow(inc, root, here).value]|])
    ensures MetThrough(inc, root, files, routes, here)
  {
    hide Along, Precedes;
    var n := |inc[Follow(inc, root, here).value]|;
    AlongLength(inc, root, files, routes);
    forall k | 0 <= k < |files| ensures Precedes(routes[k], here) || here <= routes[k] {
      BeforeEnd(routes[k], here, n);
    }
    forall r: Position | Precedes(r, here) || here <= r ensures Met(inc, root, files, routes, r) {
      BeforeEnd(r, here, n);
      if Follow(inc, root, r).Some? && here <= r && |r| > |here| {
        FollowPrefix(inc, root, r, |here| + 1);
        assert r[..|here|+1][..|here|] == here;
      }
    }
  }

  lemma AlongLength(inc: Includes, root: string, files: seq<string>, routes: seq<Position>)
    requires Along(inc, root, files, routes)
    ensures |files| == |routes|
  {
  }

  /** A file finished before brings nothing new. */
  lemma MeetAgain(inc: Includes, root: string, files: seq<string>, routes: seq<Position>, here: Position, finished: seq<string>)
    requires MetBefore(inc, root, files, routes, here) && Finished(inc, finished) && Elements(finished) <= Elements(files)
    requires Follow(inc, root, here).Some? && Follow(inc, root, here).value in finished
    ensures MetThrough(inc, root, files, routes, here)
  {
    hide Follow, Precedes, Finished;
    forall r: Position | here <= r ensures Met(inc, root, files, routes, r) {
      if Follow(inc, root, r).Some? {
        FollowFinished(inc, root, finished, here, r);
        assert Follow(inc, root, r).value in Elements(finished);
        var k: nat :| k < |files| && files[k] == Follow(inc, root, r).value;
        PrecedesLonger(routes[k], here, r);
        assert MetAt(inc, root, files, routes, r, k);
      }
    }
  }

  /** With all below the root met, every file is at its earliest route. */
  lemma MetAll(inc: Includes, root: string, files: seq<string>, routes: seq<Position>)
    requires MetThrough(inc, root, files, routes, []) && Distinct(files)
    ensures InRouteOrder(inc, root, files)
  {
    hide Follow, Precedes;
    forall k, r: Position | 0 <= k < |files| && Follow(inc, root, r) == Some(files[k])
      ensures r == routes[k] || Precedes(routes[k], r)
    {
      assert [] <= r && Met(inc, root, files, routes, r);
      var j: nat :| MetAt(inc, root, files, routes, r, j);
      assert j == k;
    }
    assert Earliest(inc, root, files, routes);
  }

  // ---------------------------------------------------------------- there is one such order

  /** The order of routes leaves no choice. */
  lemma RouteOrderUnique(inc: Includes, root: string, files: seq<string>, others: seq<string>)
    requires InRouteOrder(inc, root, files) && InRouteOrder(inc, root, others)
    requires Distinct(files) && Distinct(others) && Elements(files) == Elements(others)
    ensures files == others
  {
    var routes :| Earliest(inc, root, files, routes);
    var ways :| Earliest(inc, root, others, ways);
    SameOrder(inc, root, files, routes, others, ways, 0);
  }

  lemma SameRoute(inc: Includes, root: string, files: seq<string>, routes: seq<Position>, others: seq<string>, ways: seq<Position>, i: nat, j: nat)
    requires Earliest(inc, root, files, routes) && Earliest(inc, root, others, ways)
    requires i < |files| && j < |others| && files[i] == others[j]
    ensures routes[i] == ways[j]
  {
    hide Follow, Precedes;
    PrecedesOne(routes[i], ways[j]);
  }

  lemma {:induction false} SameOrder(inc: Includes, root: string, files: seq<string>, routes: seq<Position>, others: seq<string>, ways: seq<Position>, k: nat)
    requires Earliest(inc, root, files, routes) && Earliest(inc, root, others, ways)
    requires Distinct(files) && Distinct(others) && Elements(files) == Elements(others)
    requires k <= |files| && k <= |others| && files[..k] == others[..k]
    ensures files == others
    decreases |files| - k
  {
    hide Follow, Precedes, Earliest;
    if k < |files| && k < |others| {
      NotLater(inc, root, files, routes, others, ways, k);
      assert files[..k+1] == files[..k] + [files[k]] && others[..k+1] == others[..k] + [others[k]];
      SameOrder(inc, root, files, routes, others, ways, k + 1);
    } else if k < |files| {
      DistinctElements(files);
      DistinctElements(others);
    } else if k < |others| {
      DistinctElements(files);
      DistinctElements(others);
    }
  }

  lemma NotAmong(files: seq<string>, others: seq<string>, k: nat, i: nat)
    requires Distinct(files) && k < |files| && k <= |others| && files[..k] == others[..k]
    requires i < |others| && others[i] == files[k]
    ensures i >= k
  {
    forall j | 0 <= j < k ensures others[j] != files[k] {
      assert others[..k][j] == files[..k][j];
    }
  }

  lemma NotLater(inc: Includes, root: string, files: seq<string>, routes: seq<Position>, others: seq<string>, ways: seq<Position>, k: nat)
    requires Earliest(inc, root, files, routes) && Earliest(inc, root, others, ways)
    requires Distinct(files) && Distinct(others) && Elements(files) == Elements(others)
    requires k < |files| && k < |others| && files[..k] == others[..k]
    ensures files[k] == others[k]
  {
    hide Follow, Precedes;
    assert files[k] in Elements(others) && others[k] in Elements(files);
    var i: nat :| i < |others| && others[i] == files[k];
    var j: nat :| j < |files| && files[j] == others[k];
    NotAmong(files, others, k, i);
    NotAmong(others, files, k, j);
    if i > k && j > k {
      SameRoute(inc, root, files, routes, others, ways, k, i);
      SameRoute(inc, root, files, routes, others, ways, j, k);
      PrecedesOne(routes[k], routes[j]);
    }
  }
}
