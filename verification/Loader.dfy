/** Loading a model file with everything it includes, each file merged once. */
module Loader {
  import opened Options
  import opened Graphs
  import opened Includes
  import opened Positions
  import opened Routes

  datatype LoadError = Unreadable(path: string) | CyclicInclude(path: string)

  /** The files merged into a project, in merge order. */
  type Merged = seq<string>

  /** What an error says of the files reachable from `origin`. */
  ghost predicate Blames(inc: Includes, origin: string, error: LoadError) {
    && Reaches(inc, origin, error.path)
    && match error
       case Unreadable(path) => path !in inc
       case CyclicInclude(path) => Cyclic(inc, origin)
  }

  lemma BlamesCycle(inc: Includes, origin: string, path: string)
    requires Reaches(inc, origin, path) && Cyclic(inc, origin)
    ensures Blames(inc, origin, CyclicInclude(path))
  {
  }

  /** The files merged while the loaded ones grew from `before` to `after`,
      once each, together with `own`, not yet counted as loaded. */
  ghost predicate Merges(files: Merged, own: set<string>, before: set<string>, after: set<string>) {
    before <= after && Distinct(files) && Elements(files) == own + (after - before)
  }

  lemma MergesNothing(loaded: set<string>)
    ensures Merges([], {}, loaded, loaded)
  {
  }

  lemma MergesOne(path: string, loaded: set<string>)
    ensures Merges([path], {path}, loaded, loaded)
  {
  }

  lemma MergesMore(files: Merged, path: string, before: set<string>, mid: set<string>, child: Merged, after: set<string>)
    requires Merges(files, {path}, before, mid) && Merges(child, {}, mid, after) && path !in after
    ensures Merges(files + child, {path}, before, after)
  {
    hide Distinct, Elements;
    DistinctJoined(files, child);
  }

  lemma MergesOwn(files: Merged, path: string, before: set<string>, after: set<string>)
    requires Merges(files, {path}, before, after) && path !in before
    ensures Merges(files, {}, before, after + {path})
  {
    hide Distinct, Elements;
  }

  lemma MergesGrow(files: Merged, before: set<string>, after: set<string>)
    requires Merges(files, {}, before, after)
    ensures before <= after
  {
  }

  lemma EnteredMore(loaded: set<string>, entered: seq<string>, path: string)
    requires loaded <= Elements(entered)
    ensures loaded <= Elements(entered + [path])
  {
    forall x | x in loaded ensures x in entered + [path] { assert x in Elements(entered); }
  }

  lemma LastOf(chain: seq<string>, path: string)
    ensures chain + [path] != [] && (chain + [path])[|chain + [path]|-1] == path
  {
  }

  lemma EnteredStill(before: seq<string>, path: string, after: seq<string>)
    requires before + [path] <= after
    ensures path in Elements(after)
  {
    assert after[|before|] == (before + [path])[|before|];
  }

  lemma EnteredOwn(before: seq<string>, path: string, files: Merged, after: seq<string>)
    requires files != [] && files[0] == path && after == before + [path] + files[1..]
    ensures after == before + files
  {
  }

  lemma FollowInclude(inc: Includes, root: string, here: Position, i: nat)
    requires Follow(inc, root, here).Some? && Follow(inc, root, here).value in inc && i < |inc[Follow(inc, root, here).value]|
    ensures Follow(inc, root, here + [i]) == Some(inc[Follow(inc, root, here).value][i])
  {
    assert (here + [i])[..|here|] == here;
  }

  lemma TakenOut(waiting: set<string>, path: string)
    requires path !in waiting
    ensures waiting + {path} - {path} == waiting
  {
  }

  class LoadState {
    /** The files being loaded. */
    var active: set<string>
    /** The files already merged. */
    var loaded: set<string>
    ghost var finished: seq<string>
    /** The files entered, with the routes they were entered by. */
    ghost var entered: seq<string>
    ghost var routes: seq<Position>

    constructor ()
      ensures active == {} && loaded == {} && finished == [] && entered == [] && routes == []
    {
      active, loaded, finished, entered, routes := {}, {}, [], [], [];
    }

    /** The active files are a chain of includes from `root`. */
    ghost predicate Valid(inc: Includes, root: string, chain: seq<string>)
      reads this
    {
      && Tracked(inc, root, chain, finished) && Elements(chain) == active && Elements(finished) == loaded
      && loaded <= Elements(entered)
    }

    /** Loads one file: an error while it is under way, nothing if it was merged. */
    method Load(inc: Includes, path: string, ghost root: string, ghost chain: seq<string>, ghost here: Position)
        returns (r: Result<Merged, LoadError>)
      requires Valid(inc, root, chain) && Enters(inc, root, chain, path)
      requires MetBefore(inc, root, entered, routes, here) && Follow(inc, root, here) == Some(path)
      modifies this
      ensures Valid(inc, root, chain) && active == old(active)
      ensures r.Ok? ==> path in loaded && Merges(r.value, {}, old(loaded), loaded)
      ensures r.Ok? && path !in old(loaded) ==> r.value != [] && r.value[0] == path
      ensures old(entered) <= entered
      ensures r.Ok? ==> entered == old(entered) + r.value && MetThrough(inc, root, entered, routes, here)
      ensures r.Err? ==> Blames(inc, root, r.error)
      decreases |inc.Keys - active|, 2
    {
      hide Tracked, Cyclic, Reaches, Merges, Elements, MetBefore, MetThrough, Follow, Enters, Distinct, Blames;
      TrackEntered(inc, root, chain, finished, path);
      MergesNothing(loaded);
      if path in active {
        BlamesCycle(inc, root, path);
        return Err(CyclicInclude(path));
      }
      if path in loaded {
        MetAgain(inc, root, chain, here, path);
        return Ok([]);
      }
      r := LoadNew(inc, path, root, chain, here);
    }

    /** A file not met before is under way while it is loaded, and merged when that succeeds. */
    method LoadNew(inc: Includes, path: string, ghost root: string, ghost chain: seq<string>, ghost here: Position)
        returns (r: Result<Merged, LoadError>)
      requires Valid(inc, root, chain) && Reaches(inc, root, path) && path !in active && path !in loaded
      requires Tracked(inc, root, chain, finished) && Tracked(inc, root, chain + [path], finished) && Elements(chain + [path]) == Elements(chain) + {path}
      requires MetBefore(inc, root, entered, routes, here) && Follow(inc, root, here) == Some(path)
      modifies this
      ensures Valid(inc, root, chain) && active == old(active)
      ensures r.Ok? ==> path in loaded && Merges(r.value, {}, old(loaded), loaded) && r.value != [] && r.value[0] == path
      ensures old(entered) <= entered
      ensures r.Ok? ==> entered == old(entered) + r.value && MetThrough(inc, root, entered, routes, here)
      ensures r.Err? ==> Blames(inc, root, r.error)
      decreases |inc.Keys - active|, 1
    {
      hide Tracked, Cyclic, Reaches, Merges, Elements, MetBefore, MetThrough, Follow, Blames, Distinct, Valid;
      ghost var waiting := active;
      Enter(inc, path, root, chain, here);
      LastOf(chain, path);
      r := LoadFileAndIncludes(inc, path, root, chain + [path], waiting, here);
      ghost var grown := loaded;
      EnteredStill(old(entered), path, entered);
      Leave(inc, path, r.Ok?, root, chain, waiting, old(finished));
      if r.Ok? {
        MergesOwn(r.value, path, old(loaded), grown);
        EnteredOwn(old(entered), path, r.value, entered);
      }
    }

    /** A file is under way from now on. */
    method Enter(inc: Includes, path: string, ghost root: string, ghost chain: seq<string>, ghost here: Position)
      requires Valid(inc, root, chain)
      requires Tracked(inc, root, chain + [path], finished) && Elements(chain + [path]) == Elements(chain) + {path}
      requires MetBefore(inc, root, entered, routes, here) && Follow(inc, root, here) == Some(path)
      modifies this`active, this`entered, this`routes
      ensures Valid(inc, root, chain + [path]) && active == old(active) + {path} && entered == old(entered) + [path]
      ensures MetBefore(inc, root, entered, routes, here + [0])
      ensures Elements(chain) == old(active)
    {
      hide Tracked, Elements, MetBefore, Follow;
      MeetHere(inc, root, entered, routes, here, path);
      EnteredMore(loaded, entered, path);
      active := active + {path};
      entered, routes := entered + [path], routes + [here];
    }

    /** A file is no longer under way; it counts as merged if all went well. */
    method Leave(inc: Includes, path: string, merged: bool, ghost root: string, ghost chain: seq<string>,
                 ghost waiting: set<string>, ghost first: seq<string>)
      requires Valid(inc, root, chain + [path]) && Reaches(inc, root, path)
      requires active == waiting + {path} && path !in waiting && Elements(chain) == waiting
      requires Tracked(inc, root, chain, first) && path in Elements(entered)
      requires merged ==> path in inc && Elements(inc[path]) <= loaded
      modifies this`active, this`loaded, this`finished
      ensures Valid(inc, root, chain) && active == waiting && path !in old(loaded)
      ensures loaded == if merged then old(loaded) + {path} else old(loaded)
    {
      hide Tracked, Reaches, Elements;
      TakenOut(waiting, path);
      active := active - {path};
      TrackLeft(inc, root, chain, path, first, finished);
      if merged {
        TrackFinished(inc, root, chain, finished, path);
        loaded, finished := loaded + {path}, finished + [path];
      }
    }

    lemma MetAgain(inc: Includes, root: string, chain: seq<string>, here: Position, path: string)
      requires Valid(inc, root, chain) && path in loaded
      requires MetBefore(inc, root, entered, routes, here) && Follow(inc, root, here) == Some(path)
      ensures MetThrough(inc, root, entered, routes, here)
    {
      hide Reaches, MetBefore, MetThrough, Finished, Follow;
      MeetAgain(inc, root, entered, routes, here, finished);
    }

    /** The file itself, then what each include adds. */
    method LoadFileAndIncludes(inc: Includes, path: string, ghost root: string, ghost chain: seq<string>,
                               ghost waiting: set<string>, ghost here: Position) returns (r: Result<Merged, LoadError>)
      requires Valid(inc, root, chain) && chain != [] && chain[|chain|-1] == path
      requires active == waiting + {path} && path !in waiting
      requires MetBefore(inc, root, entered, routes, here + [0]) && Follow(inc, root, here) == Some(path)
      modifies this
      ensures Valid(inc, root, chain) && active == old(active)
      ensures r.Ok? ==> path in inc && Elements(inc[path]) <= loaded && Merges(r.value, {path}, old(loaded), loaded)
      ensures r.Ok? ==> r.value != [] && r.value[0] == path
      ensures old(entered) <= entered
      ensures r.Ok? ==> entered == old(entered) + r.value[1..] && MetThrough(inc, root, entered, routes, here)
      ensures r.Err? ==> Blames(inc, root, r.error)
      decreases |inc.Keys - waiting|, 0
    {
      hide Tracked, Cyclic, Reaches, Merges, Elements, MetBefore, MetThrough, Follow;
      TrackLast(inc, root, chain, finished);
      if path !in inc { return Err(Unreadable(path)); }
      FewerLeft(inc, waiting, path);
      var merged, includes := [path], inc[path];
      MergesOne(path, loaded);
      ElementsNone(includes);
      for i := 0 to |includes|
        invariant Valid(inc, root, chain) && active == old(active)
        invariant merged != [] && merged[0] == path
        invariant Elements(includes[..i]) <= loaded && Merges(merged, {path}, old(loaded), loaded)
        invariant entered == old(entered) + merged[1..] &&  MetBefore(inc, root, entered, routes, here + [i])
      {
        ghost var was := loaded;
        FollowInclude(inc, root, here, i);
        var child := Load(inc, includes[i], root, chain, here + [i]);
        if child.Err? { return child; }
        TrackLast(inc, root, chain, finished);
        TrackedApart(inc, root, chain, finished);
        MergesMore(merged, path, old(loaded), was, child.value, loaded);
        ElementsNext(includes, i);
        MergesGrow(child.value, was, loaded);
        MeetNext(inc, root, entered, routes, here, i);
        assert (merged + child.value)[1..] == merged[1..] + child.value;
        merged := merged + child.value;
      }
      MeetEnd(inc, root, entered, routes, here);
      assert includes[..|includes|] == includes;
      r := Ok(merged);
    }
  }

  lemma MergedAll(files: Merged, loaded: set<string>)
    requires Merges(files, {}, {}, loaded)
    ensures Distinct(files) && forall x :: x in files <==> x in loaded
  {
    assert forall x :: x in files <==> x in Elements(files);
  }

  /** Loading succeeds exactly when every file reachable can be read and none
      includes itself; then exactly the reachable files are merged, once each, in
      the order of their earliest routes from the root. */
  method LoadProject(inc: Includes, root: string) returns (r: Result<Merged, LoadError>)
    ensures r.Ok? <==> AllReadable(inc, root) && !Cyclic(inc, root)
    ensures r.Ok? ==> r.value != [] && r.value[0] == root && Distinct(r.value) && forall x :: x in r.value <==> Reaches(inc, root, x)
    ensures r.Ok? ==> InRouteOrder(inc, root, r.value)
    ensures r.Err? ==> Blames(inc, root, r.error)
  {
    hide Tracked, Cyclic, Reaches, MetBefore, MetThrough, InRouteOrder;
    var state := new LoadState();
    NothingTracked(inc, root);
    assert Elements<string>([]) == {};
    NothingMet(inc, root);
    r := state.Load(inc, root, root, [], []);
    if r.Ok? {
      TrackedExactly(inc, root, state.finished);
      MergedAll(r.value, state.loaded);
      assert r.value == state.entered;
      MetAll(inc, root, r.value, state.routes);
    }
  }
}
