/** Loading a project with the projects it depends on, each edge naming the
    identity and pinning the content of its target. */
module NativeProject {
  import opened Options
  import opened Graphs
  import opened Includes

  /** An edge: where the other project is, who it must be, what it must contain. */
  datatype Dependency = Dependency(path: string, id: string, pin: string)

  /** A manifest with the digest of its own files. */
  datatype Manifest = Manifest(id: string, snapshot: string, dependencies: seq<Dependency>)

  /** The manifests that can be read, by path. */
  type Manifests = map<string, Manifest>

  datatype GraphError =
    | Unreadable(path: string)
    | CyclicDependency(path: string)
    | WrongIdentity(path: string, dependency: Dependency)
    | WrongSnapshot(path: string, dependency: Dependency)
    | ConflictingSnapshots(path: string, other: string)

  datatype Entry = Entry(id: string, snapshot: string)

  datatype Unit = Unit(snapshot: string, path: string)

  function Targets(dependencies: seq<Dependency>): (r: seq<string>)
    ensures |r| == |dependencies|
  {
    seq(|dependencies|, i requires 0 <= i < |dependencies| => dependencies[i].path)
  }

  function Links(m: Manifests): Includes {
    map p | p in m :: Targets(m[p].dependencies)
  }

  // ---------------------------------------------------------------- what a load promises

  /** The edge leads to the project it names, with the content it pins. */
  ghost predicate EdgeMatches(m: Manifests, verified: bool, d: Dependency) {
    d.path in m && d.id == m[d.path].id && (verified ==> d.pin == m[d.path].snapshot)
  }

  ghost predicate EdgesMatch(m: Manifests, verified: bool, path: string) {
    path in m && forall i | 0 <= i < |m[path].dependencies| :: EdgeMatches(m, verified, m[path].dependencies[i])
  }

  ghost predicate SameContent(m: Manifests, p: string, q: string) {
    p in m && q in m && (m[p].id == m[q].id ==> m[p].snapshot == m[q].snapshot)
  }

  /** Every edge reachable matches, and a project found twice is the same twice. */
  ghost predicate Consistent(m: Manifests, verified: bool, root: string) {
    && (forall p | Reaches(Links(m), root, p) :: EdgesMatch(m, verified, p))
    && (verified ==> forall p, q | Reaches(Links(m), root, p) && Reaches(Links(m), root, q) :: SameContent(m, p, q))
  }

  /** What an error says of the projects reachable from `origin`. */
  ghost predicate Blames(m: Manifests, verified: bool, origin: string, error: GraphError) {
    && Reaches(Links(m), origin, error.path)
    && match error
       case Unreadable(path) => path !in m
       case CyclicDependency(path) => Cyclic(Links(m), origin)
       case WrongIdentity(path, d) => path in m && d in m[path].dependencies && d.path in m && d.id != m[d.path].id
       case WrongSnapshot(path, d) => verified && path in m && d in m[path].dependencies && d.path in m && d.pin != m[d.path].snapshot
       case ConflictingSnapshots(path, other) => verified && Reaches(Links(m), origin, other) && !SameContent(m, path, other)
  }

  // ---------------------------------------------------------------- the state

  function EntryOf(p: Manifest): Entry {
    Entry(p.id, p.snapshot)
  }

  ghost predicate Registered(m: Manifests, verified: bool, paths: map<string, Entry>, units: map<string, Unit>, p: string)
    requires p in paths
  {
    && EdgesMatch(m, verified, p) && paths[p] == EntryOf(m[p])
    && m[p].id in units && (verified ==> units[m[p].id].snapshot == m[p].snapshot)
  }

  ghost predicate Owned(m: Manifests, paths: map<string, Entry>, units: map<string, Unit>, id: string)
    requires id in units
  {
    var p := units[id].path;
    p in paths && p in m && m[p].id == id && m[p].snapshot == units[id].snapshot
  }

  /** Every finished project is registered, and every unit is one of them. */
  ghost predicate Kept(m: Manifests, verified: bool, paths: map<string, Entry>, units: map<string, Unit>) {
    && (forall p | p in paths :: Registered(m, verified, paths, units, p))
    && (forall id | id in units :: Owned(m, paths, units, id))
  }

  function WithUnit(units: map<string, Unit>, p: Manifest, path: string): map<string, Unit> {
    if p.id in units then units else units[p.id := Unit(p.snapshot, path)]
  }

  lemma KeptMore(m: Manifests, verified: bool, paths: map<string, Entry>, units: map<string, Unit>, path: string)
    requires Kept(m, verified, paths, units) && path !in paths && EdgesMatch(m, verified, path)
    requires verified && m[path].id in units ==> units[m[path].id].snapshot == m[path].snapshot
    ensures Kept(m, verified, paths[path := EntryOf(m[path])], WithUnit(units, m[path], path))
  {
    assert path in m;
    var paths', units' := paths[path := EntryOf(m[path])], WithUnit(units, m[path], path);
    hide EdgesMatch;
    forall p | p in paths' ensures Registered(m, verified, paths', units', p) {
      if p != path { assert Registered(m, verified, paths, units, p); }
    }
    forall id | id in units' ensures Owned(m, paths', units', id) {
      if id in units { assert Owned(m, paths, units, id); }
    }
  }

  lemma KeptEntry(m: Manifests, verified: bool, paths: map<string, Entry>, units: map<string, Unit>, path: string)
    requires Kept(m, verified, paths, units) && path in paths
    ensures path in m && paths[path] == EntryOf(m[path])
  {
    assert Registered(m, verified, paths, units, path);
  }

  /** An identity taken by other content is taken by a finished project. */
  lemma KeptConflict(m: Manifests, verified: bool, paths: map<string, Entry>, units: map<string, Unit>, path: string)
    requires Kept(m, verified, paths, units)
    requires path in m && m[path].id in units && units[m[path].id].snapshot != m[path].snapshot
    ensures units[m[path].id].path in paths && !SameContent(m, path, units[m[path].id].path)
  {
    assert Owned(m, paths, units, m[path].id);
  }

  lemma KeptConsistent(m: Manifests, verified: bool, root: string, paths: map<string, Entry>, units: map<string, Unit>)
    requires Kept(m, verified, paths, units)
    requires forall x :: x in paths <==> Reaches(Links(m), root, x)
    ensures Consistent(m, verified, root)
  {
    hide EdgesMatch, Reaches;
    forall p | p in paths ensures EdgesMatch(m, verified, p) {
      assert Registered(m, verified, paths, units, p);
    }
    if verified {
      forall p, q | p in paths && q in paths ensures SameContent(m, p, q) {
        KeptEntry(m, verified, paths, units, p);
        KeptEntry(m, verified, paths, units, q);
        assert Registered(m, verified, paths, units, p) && Registered(m, verified, paths, units, q);
      }
    }
  }

  lemma TargetsNext(dependencies: seq<Dependency>, i: nat)
    requires i < |dependencies|
    ensures Elements(Targets(dependencies)[..i+1]) == Elements(Targets(dependencies)[..i]) + {dependencies[i].path}
  {
    ElementsNext(Targets(dependencies), i);
  }

  class ProjectGraph {
    /** The projects being loaded, each a dependency of the one before. */
    var active: seq<string>
    var paths: map<string, Entry>
    var units: map<string, Unit>
    ghost var finished: seq<string>

    constructor ()
      ensures active == [] && paths == map[] && units == map[] && finished == []
    {
      active, paths, units, finished := [], map[], map[], [];
    }

    ghost predicate Valid(m: Manifests, verified: bool, root: string)
      reads this
    {
      && Tracked(Links(m), root, active, finished) && Elements(finished) == paths.Keys
      && Kept(m, verified, paths, units)
    }

    /** Loads one project: an error while it is under way, its identity if it was loaded. */
    method Visit(m: Manifests, path: string, verify: bool, ghost root: string) returns (r: Result<string, GraphError>)
      requires Valid(m, verify, root) && Enters(Links(m), root, active, path)
      modifies this
      ensures Valid(m, verify, root) && active == old(active) && paths.Keys >= old(paths.Keys)
      ensures r.Ok? ==> path in paths && path in m && r.value == m[path].id
      ensures r.Err? ==> Blames(m, verify, root, r.error)
      decreases |m.Keys - Elements(active)|, 1
    {
      hide Tracked, Kept, Cyclic, Reaches, Elements, Links, SameContent;
      TrackEntered(Links(m), root, active, finished, path);
      InElements(active, path);
      if path in active { return Err(CyclicDependency(path)); }
      if path in paths {
        KeptEntry(m, verify, paths, units, path);
        return Ok(paths[path].id);
      }
      ghost var waiting, before := active, finished;
      active := active + [path];
      r := VisitActive(m, path, verify, root, waiting);
      active := active[..|active|-1];
      assert active == waiting;
    }

    /** The project's dependencies in turn, checking each edge, then the project itself. */
    method VisitActive(m: Manifests, path: string, verify: bool, ghost root: string, ghost waiting: seq<string>)
        returns (r: Result<string, GraphError>)
      requires Valid(m, verify, root) && active == waiting + [path]
      requires Tracked(Links(m), root, waiting, finished) && path !in Elements(waiting)
      requires Reaches(Links(m), root, path)
      modifies this
      ensures active == old(active) && paths.Keys >= old(paths.Keys)
      ensures Tracked(Links(m), root, waiting, finished) && Elements(finished) == paths.Keys && Kept(m, verify, paths, units)
      ensures r.Ok? ==> path in paths && path in m && r.value == m[path].id
      ensures r.Err? ==> Blames(m, verify, root, r.error)
      decreases |m.Keys - Elements(waiting)|, 0
    {
      hide Tracked, Kept, Cyclic, Reaches, Elements, Links, SameContent, Consistent;
      if path !in m { return Err(Unreadable(path)); }
      var manifest := m[path];
      ghost var first := finished;
      LinksAt(m, path);
      StillFewer(m, waiting, path);
      ElementsNone(Targets(manifest.dependencies));
      for i := 0 to |manifest.dependencies|
        invariant Valid(m, verify, root) && active == old(active) && paths.Keys >= old(paths.Keys)
        invariant Elements(Targets(manifest.dependencies)[..i]) <= paths.Keys
        invariant forall k | 0 <= k < i :: EdgeMatches(m, verify, manifest.dependencies[k])
      {
        var d := manifest.dependencies[i];
        assert Targets(manifest.dependencies)[i] == d.path;
        var actual := Visit(m, d.path, verify, root);
        TrackLeft(Links(m), root, waiting, path, first, finished);
        if actual.Err? { return actual; }
        KeptEntry(m, verify, paths, units, d.path);
        TargetsNext(manifest.dependencies, i);
        if d.id != actual.value { return Err(WrongIdentity(path, d)); }
        if verify && d.pin != paths[d.path].snapshot { return Err(WrongSnapshot(path, d)); }
      }
      TrackLeft(Links(m), root, waiting, path, first, finished);
      assert Targets(manifest.dependencies)[..|manifest.dependencies|] == Targets(manifest.dependencies);
      if manifest.id in units {
        if verify && units[manifest.id].snapshot != manifest.snapshot {
          KeptConflict(m, verify, paths, units, path);
          TrackedReached(Links(m), root, waiting, finished, units[manifest.id].path);
          return Err(ConflictingSnapshots(path, units[manifest.id].path));
        }
      }
      KeptMore(m, verify, paths, units, path);
      TrackFinished(Links(m), root, waiting, finished, path);
      units := WithUnit(units, manifest, path);
      paths, finished := paths[path := EntryOf(manifest)], finished + [path];
      r := Ok(manifest.id);
    }
  }

  lemma LinksAt(m: Manifests, path: string)
    ensures path in m <==> path in Links(m)
    ensures path in m ==> Links(m)[path] == Targets(m[path].dependencies)
    ensures Links(m).Keys == m.Keys
  {
  }

  lemma StillFewer(m: Manifests, waiting: seq<string>, path: string)
    requires path in m && path !in Elements(waiting)
    ensures |m.Keys - Elements(waiting + [path])| < |m.Keys - Elements(waiting)|
  {
    assert Elements(waiting + [path]) == Elements(waiting) + {path};
    LinksAt(m, path);
    FewerLeft(Links(m), Elements(waiting), path);
  }

  /** Loading succeeds exactly when every project reachable can be read, none
      depends on itself, and every edge names and, if verified, pins its target;
      then exactly the reachable projects are loaded. */
  method LoadGraph(m: Manifests, root: string, verify: bool) returns (r: Result<string, GraphError>, graph: ProjectGraph)
    ensures r.Ok? <==> AllReadable(Links(m), root) && !Cyclic(Links(m), root) && Consistent(m, verify, root)
    ensures r.Ok? ==> root in m && r.value == m[root].id
    ensures r.Ok? ==> forall p :: p in graph.paths <==> Reaches(Links(m), root, p)
    ensures r.Err? ==> Blames(m, verify, root, r.error)
  {
    hide Tracked, Kept, Cyclic, Reaches, Elements, AllReadable, Consistent;
    graph := new ProjectGraph();
    NothingTracked(Links(m), root);
    NothingKept(m, verify);
    r := graph.Visit(m, root, verify, root);
    if r.Ok? {
      TrackedExactly(Links(m), root, graph.finished);
      KeptConsistent(m, verify, root, graph.paths, graph.units);
    } else {
      BlameFails(m, verify, root, r.error);
    }
  }

  lemma NothingKept(m: Manifests, verified: bool)
    ensures Kept(m, verified, map[], map[]) && Elements<string>([]) == {}
  {
  }

  /** Each error excludes success. */
  lemma BlameFails(m: Manifests, verified: bool, root: string, error: GraphError)
    requires Blames(m, verified, root, error)
    ensures !(AllReadable(Links(m), root) && !Cyclic(Links(m), root) && Consistent(m, verified, root))
  {
    hide Reaches, Cyclic;
    if Consistent(m, verified, root) {
      assert EdgesMatch(m, verified, error.path);
    }
  }
}
