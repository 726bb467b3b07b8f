/** Dependency resolution from package manifests: a depth-first search that pins every repository
    to one commit. Resolving a reference, fetching a commit and reading its manifest are a fixed
    `World`, in which any of them may fail. */
module Resolver {
  import opened Prelude
  import opened Ids

  datatype Dep = Dep(repo: RepoQid, specifier: string)

  /** A package at one commit. */
  datatype Key = Key(repo: RepoQid, hash: string)

  /** What loading a manifest gives. */
  datatype Package = NoManifest | Manifest(dependencies: seq<Dep>) | Unreadable

  datatype World = World(refs: map<Dep, string>, packages: map<Key, Package>)

  /** A cached package; its cache directory is named after the commit. */
  datatype ResolvedPackage = ResolvedPackage(packageId: seq<string>, version: string)

  datatype Error =
    | BadRootManifest
    | RefNotResolved(dep: Dep)
    | Conflict(repo: RepoQid, existing: string, wanted: string)
    | Cycle(repo: RepoQid)
    | FetchFailed(key: Key)
    | BadManifest(key: Key)

  function PackageId(repo: RepoQid): seq<string> {
    [repo.org, repo.repo]
  }

  function Entry(k: Key): ResolvedPackage {
    ResolvedPackage(PackageId(k.repo), k.hash)
  }

  // ----- what the manifests require -----

  function Wanted(w: World, d: Dep): Option<Key> {
    if d in w.refs then Some(Key(d.repo, w.refs[d])) else None
  }

  function DepsOf(w: World, k: Key): seq<Dep> {
    if k in w.packages && w.packages[k].Manifest? then w.packages[k].dependencies else []
  }

  ghost predicate Needs(w: World, deps: seq<Dep>, k: Key) {
    exists d :: d in deps && Wanted(w, d) == Some(k)
  }

  /** A chain of packages, each needed by the one before, the first needed by `root`. */
  ghost predicate IsChain(w: World, root: seq<Dep>, chain: seq<Key>) {
    && chain != []
    && Needs(w, root, chain[0])
    && forall i :: 0 <= i < |chain| - 1 ==> Needs(w, DepsOf(w, chain[i]), chain[i + 1])
  }

  ghost predicate Required(w: World, root: seq<Dep>, k: Key) {
    exists chain :: IsChain(w, root, chain) && chain[|chain| - 1] == k
  }

  /** `d` is declared by the root or by a required package. */
  ghost predicate Declared(w: World, root: seq<Dep>, d: Dep) {
    d in root || exists k :: Required(w, root, k) && d in DepsOf(w, k)
  }

  /** Everything required can be had, at one commit per repository. */
  ghost predicate Consistent(w: World, root: seq<Dep>) {
    && (forall d :: Declared(w, root, d) ==> Wanted(w, d).Some?)
    && (forall k :: Required(w, root, k) ==> k in w.packages && !w.packages[k].Unreadable?)
    && (forall j, k :: Required(w, root, j) && Required(w, root, k) && j.repo == k.repo ==> j == k)
  }

  /** All of `deps` are among `keys`. */
  ghost predicate Satisfied(w: World, deps: seq<Dep>, keys: set<Key>) {
    forall d :: d in deps ==> Wanted(w, d).Some? && Wanted(w, d).value in keys
  }

  ghost predicate Closed(w: World, k: Key, keys: set<Key>) {
    k in w.packages && !w.packages[k].Unreadable? && Satisfied(w, DepsOf(w, k), keys)
  }

  /** All that was added to `before` is closed inside `after`. */
  ghost predicate NewlyClosed(w: World, before: set<Key>, after: set<Key>) {
    forall k :: k in after && k !in before ==> Closed(w, k, after)
  }

  lemma NeededIsRequired(w: World, root: seq<Dep>, k: Key)
    requires Needs(w, root, k)
    ensures Required(w, root, k)
  {
    assert IsChain(w, root, [k]) && [k][|[k]| - 1] == k;
  }

  lemma RequiredExtends(w: World, root: seq<Dep>, j: Key, k: Key)
    requires Required(w, root, j) && Needs(w, DepsOf(w, j), k)
    ensures Required(w, root, k)
  {
    var chain :| IsChain(w, root, chain) && chain[|chain| - 1] == j;
    var longer := chain + [k];
    assert IsChain(w, root, longer) && longer[|longer| - 1] == k;
  }

  lemma {:induction false} ChainStaysInside(w: World, root: seq<Dep>, keys: set<Key>, chain: seq<Key>)
    requires Satisfied(w, root, keys) && forall k :: k in keys ==> Closed(w, k, keys)
    requires IsChain(w, root, chain)
    ensures chain[|chain| - 1] in keys
    decreases |chain|
  {
    if |chain| > 1 {
      var init := chain[..|chain| - 1];
      ChainStaysInside(w, root, keys, init);
    }
  }

  /** A closed set that satisfies the root holds everything required. */
  lemma ClosedHoldsRequired(w: World, root: seq<Dep>, keys: set<Key>)
    requires Satisfied(w, root, keys) && forall k :: k in keys ==> Closed(w, k, keys)
    ensures forall k :: Required(w, root, k) ==> k in keys
  {
    forall k | Required(w, root, k)
      ensures k in keys
    {
      var chain :| IsChain(w, root, chain) && chain[|chain| - 1] == k;
      ChainStaysInside(w, root, keys, chain);
    }
  }

  /** Two packages that depend on each other are consistent, so resolution accepts the cycle. */
  lemma MutualDependencyIsConsistent(a: Key, b: Key, v: string)
    requires a.repo != b.repo
    ensures var w := World(map[Dep(a.repo, v) := a.hash, Dep(b.repo, v) := b.hash],
                           map[a := Manifest([Dep(b.repo, v)]), b := Manifest([Dep(a.repo, v)])]);
            && Consistent(w, [Dep(a.repo, v)])
            && Needs(w, DepsOf(w, a), b) && Needs(w, DepsOf(w, b), a)
  {
    var toA, toB := Dep(a.repo, v), Dep(b.repo, v);
    var w := World(map[toA := a.hash, toB := b.hash], map[a := Manifest([toB]), b := Manifest([toA])]);
    assert Wanted(w, toA) == Some(a) && Wanted(w, toB) == Some(b);
    ClosedHoldsRequired(w, [toA], {a, b});
  }

  // ----- the search -----

  /** The declared dependencies and required packages the search may meet. */
  datatype Scope = Scope(declared: iset<Dep>, required: iset<Key>)

  ghost function ScopeOf(w: World, root: seq<Dep>): Scope {
    Scope(iset d | Declared(w, root, d), iset k | Required(w, root, k))
  }

  /** The scope leads nowhere outside itself. */
  ghost predicate Complete(w: World, scope: Scope) {
    && (forall d :: d in scope.declared && d in w.refs ==> Key(d.repo, w.refs[d]) in scope.required)
    && (forall k, d :: k in scope.required && d in DepsOf(w, k) ==> d in scope.declared)
  }

  /** Some reason why no consistent resolution exists. */
  ghost predicate Flawed(w: World, scope: Scope) {
    || (exists d :: d in scope.declared && d !in w.refs)
    || (exists k :: k in scope.required && (k !in w.packages || w.packages[k].Unreadable?))
    || (exists j, k :: j in scope.required && k in scope.required && j.repo == k.repo && j != k)
  }

  /** What each error says is the case. Nothing makes a cycle one. */
  ghost predicate Witnesses(w: World, scope: Scope, e: Error) {
    match e
    case RefNotResolved(d) => d in scope.declared && d !in w.refs
    case FetchFailed(k) => k in scope.required && k !in w.packages
    case BadManifest(k) => k in scope.required && k in w.packages && w.packages[k].Unreadable?
    case Conflict(repo, existing, wanted) =>
      existing != wanted && Key(repo, existing) in scope.required && Key(repo, wanted) in scope.required
    case _ => false
  }

  lemma WitnessedIsFlawed(w: World, scope: Scope, e: Error)
    requires Witnesses(w, scope, e)
    ensures Flawed(w, scope) && !e.Cycle?
  {
    if e.Conflict? {
      assert Key(e.repo, e.existing) in scope.required && Key(e.repo, e.wanted) in scope.required;
    }
  }

  /** In a conflict the existing version is the one listed, and the wanted one is not. */
  ghost predicate Blames(resolved: seq<ResolvedPackage>, e: Error) {
    e.Conflict? ==> Entry(Key(e.repo, e.existing)) in resolved && Entry(Key(e.repo, e.wanted)) !in resolved
  }

  lemma ScopeIsComplete(w: World, root: seq<Dep>)
    ensures Complete(w, ScopeOf(w, root))
  {
    var scope := ScopeOf(w, root);
    forall d | d in scope.declared && d in w.refs
      ensures Key(d.repo, w.refs[d]) in scope.required
    {
      var key := Key(d.repo, w.refs[d]);
      if d in root {
        NeededIsRequired(w, root, key);
      } else {
        var k :| Required(w, root, k) && d in DepsOf(w, k);
        RequiredExtends(w, root, k, key);
      }
    }
  }

  /** `resolved` lists the visited packages, one per repository, and all of them are required. */
  ghost predicate Coherent(w: World, scope: Scope, resolved: seq<ResolvedPackage>, visited: set<Key>) {
    && (forall k :: Entry(k) in resolved <==> k in visited)
    && (forall p :: p in resolved ==> exists k :: p == Entry(k))
    && (forall i, j :: 0 <= i < j < |resolved| ==> resolved[i].packageId != resolved[j].packageId)
    && (forall k :: k in visited ==> k in w.packages && k in scope.required)
  }

  ghost predicate Started(visited: set<Key>, inProgress: set<RepoQid>) {
    forall r :: r in inProgress ==> exists k :: k in visited && k.repo == r
  }

  lemma PushIsCoherent(w: World, scope: Scope, resolved: seq<ResolvedPackage>, visited: set<Key>, key: Key)
    requires Coherent(w, scope, resolved, visited)
    requires key in scope.required && key in w.packages
    requires forall p :: p in resolved ==> p.packageId != PackageId(key.repo)
    ensures Coherent(w, scope, resolved + [Entry(key)], visited + {key})
  {
  }

  class Search {
    const world: World
    ghost const scope: Scope
    var resolved: seq<ResolvedPackage>
    var visited: set<Key>
    var inProgress: set<RepoQid>

    ghost predicate Valid()
      reads this
    {
      && Complete(world, scope)
      && Coherent(world, scope, resolved, visited)
      && Started(visited, inProgress)
    }

    constructor (world: World, ghost scope: Scope)
      requires Complete(world, scope)
      ensures Valid() && this.world == world && this.scope == scope
      ensures resolved == [] && visited == {} && inProgress == {}
    {
      this.world, this.scope := world, scope;
      resolved, visited, inProgress := [], {}, {};
    }

    /** The first resolved package with this id. */
    method FindResolved(id: seq<string>) returns (found: Option<ResolvedPackage>)
      ensures found.Some? ==> found.value in resolved && found.value.packageId == id
      ensures found.None? ==> forall p :: p in resolved ==> p.packageId != id
    {
      for i := 0 to |resolved|
        invariant forall j :: 0 <= j < i ==> resolved[j].packageId != id
      {
        if resolved[i].packageId == id {
          return Some(resolved[i]);
        }
      }
      found := None;
    }

    /** Resolve `dependencies` and all they lead to. On success every one of them, and everything
        newly resolved, is satisfied inside `visited`; a failure means the root has no consistent
        resolution. The cycle error is never returned. */
    method ResolveDeps(dependencies: seq<Dep>) returns (r: Result<(), Error>)
      requires Valid()
      requires forall d :: d in dependencies ==> d in scope.declared
      modifies this
      ensures r.Ok? ==> Valid() && inProgress == old(inProgress)
      ensures old(visited) <= visited && old(resolved) <= resolved
      ensures r.Ok? ==> Satisfied(world, dependencies, visited)
      ensures r.Ok? ==> NewlyClosed(world, old(visited), visited)
      ensures r.Err? ==> Witnesses(world, scope, r.error) && Blames(resolved, r.error)
      decreases world.packages.Keys - visited, 2
    {
      for i := 0 to |dependencies|
        invariant Valid() && inProgress == old(inProgress)
        invariant old(visited) <= visited && old(resolved) <= resolved
        invariant Satisfied(world, dependencies[..i], visited)
        invariant NewlyClosed(world, old(visited), visited)
      {
        var d := dependencies[i];
        var one := ResolveOne(d);
        if one.Err? {
          return one;
        }
        assert dependencies[..i + 1] == dependencies[..i] + [d];
      }
      r := Ok(());
    }

    /** One turn of the loop: resolve `d` and all it leads to. */
    method ResolveOne(d: Dep) returns (r: Result<(), Error>)
      requires Valid()
      requires d in scope.declared
      modifies this
      ensures r.Ok? ==> Valid() && inProgress == old(inProgress)
      ensures old(visited) <= visited && old(resolved) <= resolved
      ensures r.Ok? ==> Wanted(world, d).Some? && Wanted(world, d).value in visited
      ensures r.Ok? ==> NewlyClosed(world, old(visited), visited)
      ensures r.Err? ==> Witnesses(world, scope, r.error) && Blames(resolved, r.error)
      decreases world.packages.Keys - visited, 1
    {
      if d !in world.refs {
        return Err(RefNotResolved(d));
      }
      var key := Key(d.repo, world.refs[d]);
      if key in visited {
        return Ok(());
      }
      var existing := FindResolved(PackageId(d.repo));
      if existing.Some? {
        if existing.value.version != key.hash {
          ghost var k :| existing.value == Entry(k);
          return Err(Conflict(d.repo, existing.value.version, key.hash));
        }
        return Ok(());
      }
      if d.repo in inProgress {
        return Err(Cycle(d.repo));
      }
      r := Descend(key);
    }

    /** Fetch a package that no resolved one stands for yet, list it, and resolve what it declares. */
    method Descend(key: Key) returns (r: Result<(), Error>)
      requires Valid() && key in scope.required && key !in visited
      requires forall p :: p in resolved ==> p.packageId != PackageId(key.repo)
      requires key.repo !in inProgress
      modifies this
      ensures r.Ok? ==> Valid() && inProgress == old(inProgress)
      ensures old(visited) <= visited && old(resolved) <= resolved
      ensures r.Ok? ==> key in visited && NewlyClosed(world, old(visited), visited)
      ensures r.Ok? ==> old(resolved) + [Entry(key)] <= resolved
      ensures r.Err? ==> Witnesses(world, scope, r.error) && Blames(resolved, r.error)
      decreases world.packages.Keys - visited, 0
    {
      hide Coherent;
      inProgress := inProgress + {key.repo};
      if key !in world.packages {
        return Err(FetchFailed(key));
      }
      PushIsCoherent(world, scope, resolved, visited, key);
      visited := visited + {key};
      resolved := resolved + [Entry(key)];
      match world.packages[key] {
        case Unreadable => return Err(BadManifest(key));
        case NoManifest =>
        case Manifest(deps) =>
          var s := ResolveDeps(deps);
          if s.Err? {
            return s;
          }
      }
      inProgress := inProgress - {key.repo};
      r := Ok(());
    }
  }

  // ----- the entry point -----

  /** The package's id is its organisation and repository, its version the commit. */
  ghost predicate Names(p: ResolvedPackage, k: Key) {
    p.packageId == [k.repo.org, k.repo.repo] && p.version == k.hash
  }

  /** The set of packages listed. */
  ghost function Listed(resolved: seq<ResolvedPackage>): iset<Key> {
    iset k | IsListed(resolved, k)
  }

  ghost predicate IsListed(resolved: seq<ResolvedPackage>, k: Key) {
    exists p :: p in resolved && Names(p, k)
  }

  lemma ListedIsEntry(resolved: seq<ResolvedPackage>, k: Key)
    ensures k in Listed(resolved) <==> Entry(k) in resolved
  {
    assert Names(Entry(k), k);
    if p :| p in resolved && Names(p, k) {
      assert p == Entry(k);
    }
  }

  /** What a search that ended without an error has listed. */
  lemma SuccessIsExact(w: World, deps: seq<Dep>, resolved: seq<ResolvedPackage>, visited: set<Key>)
    requires Coherent(w, ScopeOf(w, deps), resolved, visited)
    requires Satisfied(w, deps, visited) && NewlyClosed(w, {}, visited)
    ensures Consistent(w, deps)
    ensures Listed(resolved) == iset k | Required(w, deps, k)
    ensures forall p :: p in resolved ==> exists k: Key :: Names(p, k)
  {
    hide Required, Names;
    ClosedHoldsRequired(w, deps, visited);
    assert forall k :: Required(w, deps, k) <==> k in visited;
    forall k
      ensures k in Listed(resolved) <==> k in visited
    {
      ListedIsEntry(resolved, k);
    }
    forall p | p in resolved
      ensures exists k: Key :: Names(p, k)
    {
      var k :| p == Entry(k);
      EntryNames(k);
    }
    OnePerRepository(w, deps, resolved, visited);
  }

  lemma EntryNames(k: Key)
    ensures Names(Entry(k), k)
  {
  }

  lemma OnePerRepository(w: World, deps: seq<Dep>, resolved: seq<ResolvedPackage>, visited: set<Key>)
    requires Coherent(w, ScopeOf(w, deps), resolved, visited)
    ensures forall j, k :: j in visited && k in visited && j.repo == k.repo ==> j == k
  {
    forall j, k | j in visited && k in visited && j.repo == k.repo
      ensures j == k
    {
      assert Entry(j) in resolved && Entry(k) in resolved;
    }
  }

  /** Resolution ends, and succeeds exactly when what the root manifest requires is consistent.
      It then lists every required package and no other, none twice. */
  method ResolveAll(world: World, manifest: Package) returns (r: Result<seq<ResolvedPackage>, Error>)
    ensures manifest.Unreadable? ==> r == Err(BadRootManifest)
    ensures manifest.NoManifest? ==> r == Ok([])
    ensures manifest.Manifest? ==> (r.Ok? <==> Consistent(world, manifest.dependencies))
    ensures r.Err? ==> !r.error.Cycle?
    ensures manifest.Manifest? && r.Ok? ==>
              Listed(r.value) == iset k | Required(world, manifest.dependencies, k)
    ensures r.Ok? ==> forall i, j :: 0 <= i < j < |r.value| ==> r.value[i].packageId != r.value[j].packageId
    ensures r.Ok? ==> forall p :: p in r.value ==> exists k: Key :: Names(p, k)
    ensures manifest.Manifest? && r.Err? ==> Witnesses(world, ScopeOf(world, manifest.dependencies), r.error)
  {
    match manifest
    case Unreadable => r := Err(BadRootManifest);
    case NoManifest => r := Ok([]);
    case Manifest(deps) =>
      ScopeIsComplete(world, deps);
      var search := new Search(world, ScopeOf(world, deps));
      var s := search.ResolveDeps(deps);
      match s
      case Err(e) =>
        WitnessedIsFlawed(world, search.scope, e);
        r := Err(e);
      case Ok(_) =>
        SuccessIsExact(world, deps, search.resolved, search.visited);
        r := Ok(search.resolved);
  }
}
