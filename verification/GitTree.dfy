/** Reading files of a commit by walking Git trees. Objects are stored by hash and decoded when
    read; their stored kind is not looked at. */
module GitTree {
  import opened Prelude

  type Oid = nat
  type Bytes = seq<int>

  datatype Mode = TreeMode | BlobMode | OtherMode

  datatype Entry = Entry(filename: string, mode: Mode, oid: Oid)

  type Tree = seq<Entry>

  /** A stored object: its bytes, and what they decode to as a commit and as a tree. */
  datatype Object = Object(data: Bytes, asCommit: Option<Oid>, asTree: Option<Tree>)

  type Objects = map<Oid, Object>

  /** The segments a path iterates over. `.`, `..` and the root `/` name no entry. */
  type Path = seq<string>

  datatype FileError = ReadError | NotFound(path: Path) | NotADirectory(path: Path) | NotAFile(path: Path)

  // ----- reading objects -----

  /** The tree a commit points to. */
  function ReadCommit(objects: Objects, commit: Oid): Option<Oid> {
    if commit in objects then objects[commit].asCommit else None
  }

  function ReadTree(objects: Objects, oid: Oid): Option<Tree> {
    if oid in objects then objects[oid].asTree else None
  }

  function ReadBlob(objects: Objects, oid: Oid): Option<Bytes> {
    if oid in objects then Some(objects[oid].data) else None
  }

  /** The first entry with the name. */
  function Lookup(tree: Tree, name: string): (r: Option<Entry>)
    ensures r.Some? ==> r.value in tree && r.value.filename == name
    ensures r.None? ==> forall e :: e in tree ==> e.filename != name
  {
    if tree == [] then None
    else if tree[0].filename == name then Some(tree[0])
    else Lookup(tree[1..], name)
  }

  // ----- paths -----

  function FileName(path: Path): Option<string> {
    if path == [] || path[|path| - 1] in [".", "..", "/"] then None else Some(path[|path| - 1])
  }

  function Parent(path: Path): Option<Path> {
    if path == [] || path == ["/"] then None else Some(path[..|path| - 1])
  }

  // ----- what reading means -----

  /** The tree reached from `tree` along `rest`, which is the end of the path `full`; `walked` is
      what has been walked, for the errors. */
  function Walk(objects: Objects, tree: Tree, rest: Path, walked: Path, full: Path): (r: Result<Tree, FileError>)
    decreases |rest|
  {
    if rest == [] then Ok(tree)
    else if rest[0] == "." then Walk(objects, tree, rest[1..], walked, full)
    else if rest[0] == ".." then Err(NotFound(full))
    else
      var here := walked + [rest[0]];
      match Lookup(tree, rest[0])
      case None => Err(NotFound(here))
      case Some(entry) =>
        if entry.mode != TreeMode then Err(NotADirectory(here))
        else
          match ReadTree(objects, entry.oid)
          case None => Err(ReadError)
          case Some(next) => Walk(objects, next, rest[1..], here, full)
  }

  function DirAt(objects: Objects, commit: Oid, path: Path): (r: Result<Tree, FileError>) {
    match ReadCommit(objects, commit)
    case None => Err(ReadError)
    case Some(root) =>
      match ReadTree(objects, root)
      case None => Err(ReadError)
      case Some(tree) => Walk(objects, tree, path, [], path)
  }

  function ReadFile(objects: Objects, commit: Oid, path: Path): (r: Result<Bytes, FileError>) {
    match FileName(path)
    case None => Err(NotFound(path))
    case Some(name) =>
      match DirAt(objects, commit, if Parent(path).Some? then Parent(path).value else [])
      case Err(e) => Err(e)
      case Ok(dir) =>
        match Lookup(dir, name)
        case None => Err(NotFound(path))
        case Some(entry) =>
          if entry.mode != BlobMode then Err(NotAFile(path))
          else
            match ReadBlob(objects, entry.oid)
            case None => Err(ReadError)
            case Some(data) => Ok(data)
  }

  function PathHash(objects: Objects, commit: Oid, path: Path): (r: Result<Option<Oid>, FileError>) {
    if path == [] then
      match ReadCommit(objects, commit)
      case None => Err(ReadError)
      case Some(root) => Ok(Some(root))
    else
      match FileName(path)
      case None => Ok(None)
      case Some(name) =>
        match DirAt(objects, commit, if Parent(path).Some? then Parent(path).value else [])
        case Err(NotFound(_)) => Ok(None)
        case Err(e) => Err(e)
        case Ok(dir) =>
          match Lookup(dir, name)
          case None => Ok(None)
          case Some(entry) => Ok(Some(entry.oid))
  }

  /** The walk as a loop that reassigns the tree. */
  method ReadDir(objects: Objects, commit: Oid, path: Option<Path>) returns (r: Result<Tree, FileError>)
    ensures r == DirAt(objects, commit, if path.Some? then path.value else [])
  {
    var root := ReadCommit(objects, commit);
    if root.None? {
      return Err(ReadError);
    }
    var start := ReadTree(objects, root.value);
    if start.None? {
      return Err(ReadError);
    }
    var tree := start.value;
    var walked: Path := [];
    if path.Some? {
      var full := path.value;
      var i := 0;
      while i < |full|
        invariant i <= |full|
        invariant Walk(objects, start.value, full, [], full) == Walk(objects, tree, full[i..], walked, full)
      {
        var segment := full[i];
        i := i + 1;
        if segment == "." {
          continue;
        }
        if segment == ".." {
          return Err(NotFound(full));
        }
        walked := walked + [segment];
        var entry := Lookup(tree, segment);
        if entry.None? {
          return Err(NotFound(walked));
        }
        if entry.value.mode != TreeMode {
          return Err(NotADirectory(walked));
        }
        var next := ReadTree(objects, entry.value.oid);
        if next.None? {
          return Err(ReadError);
        }
        tree := next.value;
      }
    }
    r := Ok(tree);
  }

  // ----- compositionality -----

  /** `path` is the root, or names a directory entry of an existing directory. */
  ghost predicate IsDirectory(objects: Objects, commit: Oid, path: Path) {
    if path == [] then ReadCommit(objects, commit).Some?
    else
      && FileName(path).Some?
      && DirAt(objects, commit, path[..|path| - 1]).Ok?
      && var entry := Lookup(DirAt(objects, commit, path[..|path| - 1]).value, path[|path| - 1]);
         entry.Some? && entry.value.mode == TreeMode
  }

  /** The segments that name an entry. */
  function Named(path: Path): Path {
    if path == [] then []
    else (if path[0] == "." then [] else [path[0]]) + Named(path[1..])
  }

  /** `name` is a directory entry of `tree`, and `next` its tree. */
  ghost predicate Opens(objects: Objects, tree: Tree, name: string, next: Tree) {
    exists i :: 0 <= i < |tree| && tree[i].filename == name && tree[i].mode == TreeMode
      && ReadTree(objects, tree[i].oid) == Some(next)
      && forall j :: 0 <= j < i ==> tree[j].filename != name
  }

  /** Trees that open one into the next along the names. */
  ghost predicate IsDescent(objects: Objects, trees: seq<Tree>, names: Path) {
    && |trees| == |names| + 1
    && forall i :: 0 <= i < |names| ==> Opens(objects, trees[i], names[i], trees[i + 1])
  }

  lemma {:induction false} LookupHasIndex(tree: Tree, name: string) returns (i: nat)
    requires Lookup(tree, name).Some?
    ensures i < |tree| && tree[i] == Lookup(tree, name).value && tree[i].filename == name
    ensures forall j :: 0 <= j < i ==> tree[j].filename != name
  {
    if tree[0].filename == name {
      i := 0;
    } else {
      i := LookupHasIndex(tree[1..], name);
      i := i + 1;
    }
  }

  lemma OpensIsLookup(objects: Objects, tree: Tree, name: string, next: Tree)
    ensures Opens(objects, tree, name, next) <==>
            var e := Lookup(tree, name);
            e.Some? && e.value.mode == TreeMode && ReadTree(objects, e.value.oid) == Some(next)
  {
    if Lookup(tree, name).Some? {
      var i := LookupHasIndex(tree, name);
    }
  }

  /** `names` lead from `tree` down to `last`. */
  ghost predicate LeadsTo(objects: Objects, tree: Tree, names: Path, last: Tree) {
    exists trees :: IsDescent(objects, trees, names) && trees[0] == tree && trees[|trees| - 1] == last
  }

  lemma LeadsNowhere(objects: Objects, tree: Tree, last: Tree)
    ensures LeadsTo(objects, tree, [], last) <==> tree == last
  {
    if tree == last {
      assert IsDescent(objects, [tree], []);
    }
  }

  /** The first name opens a tree from which the others lead on. */
  lemma LeadsFurther(objects: Objects, tree: Tree, name: string, next: Tree, names: Path, last: Tree)
    requires Opens(objects, tree, name, next) && LeadsTo(objects, next, names, last)
    ensures LeadsTo(objects, tree, [name] + names, last)
  {
    hide Opens;
    var trees :| IsDescent(objects, trees, names) && trees[0] == next && trees[|trees| - 1] == last;
    var all, longer := [name] + names, [tree] + trees;
    forall i | 0 <= i < |all|
      ensures Opens(objects, longer[i], all[i], longer[i + 1])
    {
      assert i > 0 ==> Opens(objects, trees[i - 1], names[i - 1], trees[i - 1 + 1]);
    }
    assert IsDescent(objects, longer, all) && longer[|longer| - 1] == last;
  }

  lemma LeadsFirst(objects: Objects, tree: Tree, name: string, names: Path, last: Tree) returns (next: Tree)
    requires LeadsTo(objects, tree, [name] + names, last)
    ensures Opens(objects, tree, name, next) && LeadsTo(objects, next, names, last)
  {
    hide Opens;
    var all := [name] + names;
    var trees :| IsDescent(objects, trees, all) && trees[0] == tree && trees[|trees| - 1] == last;
    next := trees[1];
    var shorter := trees[1..];
    assert Opens(objects, trees[0], all[0], trees[0 + 1]);
    forall i | 0 <= i < |names|
      ensures Opens(objects, shorter[i], names[i], shorter[i + 1])
    {
      assert Opens(objects, trees[i + 1], all[i + 1], trees[i + 1 + 1]);
    }
    assert IsDescent(objects, shorter, names) && shorter[|shorter| - 1] == last;
  }

  lemma LeadsThrough(objects: Objects, tree: Tree, name: string, names: Path, last: Tree)
    ensures LeadsTo(objects, tree, [name] + names, last) <==>
            exists next :: Opens(objects, tree, name, next) && LeadsTo(objects, next, names, last)
  {
    hide Opens, LeadsTo;
    if next :| Opens(objects, tree, name, next) && LeadsTo(objects, next, names, last) {
      LeadsFurther(objects, tree, name, next, names, last);
    }
    if LeadsTo(objects, tree, [name] + names, last) {
      var next := LeadsFirst(objects, tree, name, names, last);
    }
  }

  /** A walk succeeds exactly when the path never goes up and its names lead from directory to
      directory; it then ends in the last one. */
  lemma {:induction false} WalkIsDescent(objects: Objects, tree: Tree, p: Path, walked: Path, full: Path, last: Tree)
    ensures Walk(objects, tree, p, walked, full) == Ok(last) <==> ".." !in p && LeadsTo(objects, tree, Named(p), last)
    decreases |p|
  {
    hide LeadsTo, Opens, ReadTree;
    if p == [] {
      LeadsNowhere(objects, tree, last);
    } else {
      if p[0] == "." {
        WalkIsDescent(objects, tree, p[1..], walked, full, last);
        assert Named(p) == Named(p[1..]);
      } else if p[0] != ".." {
        LeadsThrough(objects, tree, p[0], Named(p[1..]), last);
        forall next
          ensures Opens(objects, tree, p[0], next) <==>
                  var e := Lookup(tree, p[0]);
                  e.Some? && e.value.mode == TreeMode && ReadTree(objects, e.value.oid) == Some(next)
          ensures Walk(objects, next, p[1..], walked + [p[0]], full) == Ok(last) <==>
                  ".." !in p[1..] && LeadsTo(objects, next, Named(p[1..]), last)
        {
          OpensIsLookup(objects, tree, p[0], next);
          WalkIsDescent(objects, next, p[1..], walked + [p[0]], full, last);
        }
      }
    }
  }

  /** `e` is the first entry of `tree` with the name. */
  ghost predicate FirstEntry(tree: Tree, name: string, e: Entry) {
    exists i :: 0 <= i < |tree| && tree[i] == e && e.filename == name
      && forall j :: 0 <= j < i ==> tree[j].filename != name
  }

  ghost predicate NoEntry(tree: Tree, name: string) {
    forall i :: 0 <= i < |tree| ==> tree[i].filename != name
  }

  lemma LookupIsFirst(tree: Tree, name: string, e: Entry)
    ensures Lookup(tree, name) == Some(e) <==> FirstEntry(tree, name, e)
    ensures Lookup(tree, name).None? <==> NoEntry(tree, name)
  {
    if Lookup(tree, name).Some? {
      var i := LookupHasIndex(tree, name);
      assert FirstEntry(tree, name, Lookup(tree, name).value);
    }
  }

  /** Why a walk cannot go from `dir` through `segment`, `here` being the path to it. */
  ghost predicate StopsAt(objects: Objects, dir: Tree, segment: string, here: Path, full: Path, e: FileError) {
    if segment == ".." then e == NotFound(full)
    else
      || (NoEntry(dir, segment) && e == NotFound(here))
      || (exists entry :: FirstEntry(dir, segment, entry) && entry.mode != TreeMode && e == NotADirectory(here))
      || (exists entry :: FirstEntry(dir, segment, entry) && entry.mode == TreeMode &&
            ReadTree(objects, entry.oid).None? && e == ReadError)
  }

  /** The first `k` segments lead from `tree` to `dir`, and the next one cannot be walked. */
  ghost predicate StopsAfter(objects: Objects, tree: Tree, p: Path, walked: Path, full: Path, k: nat, dir: Tree,
                             e: FileError) {
    && k < |p| && p[k] != "." && ".." !in p[..k]
    && LeadsTo(objects, tree, Named(p[..k]), dir)
    && StopsAt(objects, dir, p[k], walked + Named(p[..k]) + [p[k]], full, e)
  }

  ghost predicate Stops(objects: Objects, tree: Tree, p: Path, walked: Path, full: Path, e: FileError) {
    exists k: nat, dir :: StopsAfter(objects, tree, p, walked, full, k, dir, e)
  }

  lemma StopsHere(objects: Objects, tree: Tree, p: Path, walked: Path, full: Path, e: FileError)
    requires p != [] && p[0] != "." && StopsAt(objects, tree, p[0], walked + [p[0]], full, e)
    ensures Stops(objects, tree, p, walked, full, e)
  {
    hide LeadsTo, StopsAt;
    LeadsNowhere(objects, tree, tree);
    assert p[..0] == [] && walked + [] == walked;
    assert StopsAfter(objects, tree, p, walked, full, 0, tree, e);
  }

  /** Skipping a dot changes nothing. */
  lemma StopsAfterDot(objects: Objects, tree: Tree, p: Path, walked: Path, full: Path, e: FileError)
    requires p != [] && p[0] == "." && Stops(objects, tree, p[1..], walked, full, e)
    ensures Stops(objects, tree, p, walked, full, e)
  {
    hide LeadsTo, StopsAt;
    var k: nat, dir :| StopsAfter(objects, tree, p[1..], walked, full, k, dir, e);
    assert p[..k + 1][1..] == p[1..][..k] && Named(p[..k + 1]) == Named(p[1..][..k]);
    assert StopsAfter(objects, tree, p, walked, full, k + 1, dir, e);
  }

  lemma StopsAfterEntry(objects: Objects, tree: Tree, p: Path, next: Tree, walked: Path, full: Path, e: FileError)
    requires p != [] && p[0] != "." && p[0] != ".." && Opens(objects, tree, p[0], next)
    requires Stops(objects, next, p[1..], walked + [p[0]], full, e)
    ensures Stops(objects, tree, p, walked, full, e)
  {
    hide LeadsTo, StopsAt, Opens;
    var k: nat, dir :| StopsAfter(objects, next, p[1..], walked + [p[0]], full, k, dir, e);
    var names := Named(p[1..][..k]);
    LeadsFurther(objects, tree, p[0], next, names, dir);
    assert p[..k + 1][1..] == p[1..][..k] && Named(p[..k + 1]) == [p[0]] + names;
    assert walked + [p[0]] + names == walked + Named(p[..k + 1]);
    assert StopsAfter(objects, tree, p, walked, full, k + 1, dir, e);
  }

  /** A walk that fails says where and why: the segments before lead to a directory that has no such
      entry, or one that is no directory, or one whose tree cannot be read; or the path goes up. */
  lemma {:induction false} FailedWalkStops(objects: Objects, tree: Tree, p: Path, walked: Path, full: Path)
    requires Walk(objects, tree, p, walked, full).Err?
    ensures Stops(objects, tree, p, walked, full, Walk(objects, tree, p, walked, full).error)
    decreases |p|
  {
    hide Stops, StopsAt, Opens, ReadTree;
    var e := Walk(objects, tree, p, walked, full).error;
    if p[0] == "." {
      FailedWalkStops(objects, tree, p[1..], walked, full);
      StopsAfterDot(objects, tree, p, walked, full, e);
    } else if p[0] == ".." {
      StopReason(objects, tree, p[0], walked + [p[0]], full);
      StopsHere(objects, tree, p, walked, full, e);
    } else {
      var entry := Lookup(tree, p[0]);
      if entry.Some? && entry.value.mode == TreeMode && ReadTree(objects, entry.value.oid).Some? {
        var next := ReadTree(objects, entry.value.oid).value;
        OpensIsLookup(objects, tree, p[0], next);
        FailedWalkStops(objects, next, p[1..], walked + [p[0]], full);
        StopsAfterEntry(objects, tree, p, next, walked, full, e);
      } else {
        StopReason(objects, tree, p[0], walked + [p[0]], full);
        StopsHere(objects, tree, p, walked, full, e);
      }
    }
  }

  lemma StopReason(objects: Objects, dir: Tree, segment: string, here: Path, full: Path)
    ensures segment == ".." ==> StopsAt(objects, dir, segment, here, full, NotFound(full))
    ensures segment != ".." ==>
              var entry := Lookup(dir, segment);
              if entry.None? then StopsAt(objects, dir, segment, here, full, NotFound(here))
              else if entry.value.mode != TreeMode then StopsAt(objects, dir, segment, here, full, NotADirectory(here))
              else ReadTree(objects, entry.value.oid).None? ==> StopsAt(objects, dir, segment, here, full, ReadError)
  {
    if Lookup(dir, segment).Some? {
      LookupIsFirst(dir, segment, Lookup(dir, segment).value);
    }
  }

  // ----- exactly what the reads return -----

  /** The commit's root tree. */
  ghost predicate IsRoot(objects: Objects, commit: Oid, tree: Tree) {
    && commit in objects && objects[commit].asCommit.Some?
    && objects[commit].asCommit.value in objects
    && objects[objects[commit].asCommit.value].asTree == Some(tree)
  }

  /** `path` leads from the commit's root to `dir` without going up. */
  ghost predicate IsDirAt(objects: Objects, commit: Oid, path: Path, dir: Tree) {
    ".." !in path && exists root :: IsRoot(objects, commit, root) && LeadsTo(objects, root, Named(path), dir)
  }

  lemma DirAtIff(objects: Objects, commit: Oid, path: Path, dir: Tree)
    ensures DirAt(objects, commit, path) == Ok(dir) <==> IsDirAt(objects, commit, path, dir)
  {
    hide LeadsTo, Walk, Named;
    forall root | IsRoot(objects, commit, root)
      ensures Walk(objects, root, path, [], path) == Ok(dir) <==>
              ".." !in path && LeadsTo(objects, root, Named(path), dir)
      ensures DirAt(objects, commit, path) == Walk(objects, root, path, [], path)
    {
      WalkIsDescent(objects, root, path, [], path, dir);
    }
  }

  /** A directory read fails because the root cannot be read, or where the walk stops. */
  lemma DirAtFails(objects: Objects, commit: Oid, path: Path)
    requires DirAt(objects, commit, path).Err?
    ensures || ((forall root :: !IsRoot(objects, commit, root)) && DirAt(objects, commit, path) == Err(ReadError))
            || (exists root :: IsRoot(objects, commit, root) &&
                  Stops(objects, root, path, [], path, DirAt(objects, commit, path).error))
  {
    hide Walk, Stops;
    var oid := ReadCommit(objects, commit);
    if oid.Some? && ReadTree(objects, oid.value).Some? {
      var root := ReadTree(objects, oid.value).value;
      assert IsRoot(objects, commit, root);
      FailedWalkStops(objects, root, path, [], path);
    }
  }

  /** The last segment names an entry. */
  predicate NamesEntry(path: Path) {
    path != [] && path[|path| - 1] != "." && path[|path| - 1] != ".." && path[|path| - 1] != "/"
  }

  /** `path` names `e`, the first such entry of the directory before it. */
  ghost predicate IsEntryAt(objects: Objects, commit: Oid, path: Path, e: Entry) {
    NamesEntry(path) && IsEntryIn(objects, commit, path[..|path| - 1], path[|path| - 1], e)
  }

  ghost predicate IsEntryIn(objects: Objects, commit: Oid, parent: Path, name: string, e: Entry) {
    exists dir :: IsDirAt(objects, commit, parent, dir) && FirstEntry(dir, name, e)
  }

  lemma EntryAtIff(objects: Objects, commit: Oid, path: Path, e: Entry)
    requires NamesEntry(path)
    ensures var dir := DirAt(objects, commit, path[..|path| - 1]);
            IsEntryAt(objects, commit, path, e) <==> dir.Ok? && Lookup(dir.value, path[|path| - 1]) == Some(e)
  {
    hide IsDirAt, FirstEntry, DirAt;
    var parent, name := path[..|path| - 1], path[|path| - 1];
    forall dir
      ensures DirAt(objects, commit, parent) == Ok(dir) <==> IsDirAt(objects, commit, parent, dir)
      ensures Lookup(dir, name) == Some(e) <==> FirstEntry(dir, name, e)
    {
      DirAtIff(objects, commit, parent, dir);
      LookupIsFirst(dir, name, e);
    }
  }

  /** A file is read exactly when its path names a blob entry whose object is stored, and the data are
      that object's. */
  lemma ReadFileIff(objects: Objects, commit: Oid, path: Path, data: Bytes)
    ensures ReadFile(objects, commit, path) == Ok(data) <==>
            exists e :: IsEntryAt(objects, commit, path, e) && e.mode == BlobMode &&
              e.oid in objects && objects[e.oid].data == data
  {
    hide IsEntryAt, DirAt;
    NamingIsFileName(path);
    if NamesEntry(path) {
      forall e
        ensures var dir := DirAt(objects, commit, path[..|path| - 1]);
                IsEntryAt(objects, commit, path, e) <==> dir.Ok? && Lookup(dir.value, path[|path| - 1]) == Some(e)
      {
        EntryAtIff(objects, commit, path, e);
      }
    } else {
      NoEntryNamed(objects, commit, path);
    }
  }

  /** An entry that is no file is reported as such; a file whose object is missing cannot be read. */
  lemma ReadFileOfEntry(objects: Objects, commit: Oid, path: Path, e: Entry)
    requires IsEntryAt(objects, commit, path, e)
    ensures e.mode != BlobMode ==> ReadFile(objects, commit, path) == Err(NotAFile(path))
    ensures e.mode == BlobMode && e.oid !in objects ==> ReadFile(objects, commit, path) == Err(ReadError)
  {
    hide DirAt;
    NamingIsFileName(path);
    EntryAtIff(objects, commit, path, e);
  }

  /** Without an entry the file is not found, or the directory's error is passed on. */
  lemma ReadFileOfNothing(objects: Objects, commit: Oid, path: Path)
    requires forall e :: !IsEntryAt(objects, commit, path, e)
    ensures ReadFile(objects, commit, path) ==
            if NamesEntry(path) && DirAt(objects, commit, path[..|path| - 1]).Err?
            then Err(DirAt(objects, commit, path[..|path| - 1]).error) else Err(NotFound(path))
  {
    hide DirAt, IsEntryAt;
    NamingIsFileName(path);
    if NamesEntry(path) {
      var dir := DirAt(objects, commit, path[..|path| - 1]);
      if dir.Ok? && Lookup(dir.value, path[|path| - 1]).Some? {
        EntryAtIff(objects, commit, path, Lookup(dir.value, path[|path| - 1]).value);
      }
    }
  }

  lemma NamingIsFileName(path: Path)
    ensures FileName(path) == if NamesEntry(path) then Some(path[|path| - 1]) else None
    ensures NamesEntry(path) ==> Parent(path) == Some(path[..|path| - 1])
  {
  }

  lemma NoEntryNamed(objects: Objects, commit: Oid, path: Path)
    requires !NamesEntry(path)
    ensures forall e :: !IsEntryAt(objects, commit, path, e)
  {
  }

  /** The hash of a path is the commit's tree for the root, and otherwise that of the entry named. */
  lemma PathHashIff(objects: Objects, commit: Oid, path: Path, oid: Oid)
    ensures PathHash(objects, commit, path) == Ok(Some(oid)) <==>
            if path == [] then commit in objects && objects[commit].asCommit == Some(oid)
            else exists e :: IsEntryAt(objects, commit, path, e) && e.oid == oid
  {
    hide IsEntryAt, DirAt;
    NamingIsFileName(path);
    if NamesEntry(path) {
      forall e
        ensures var dir := DirAt(objects, commit, path[..|path| - 1]);
                IsEntryAt(objects, commit, path, e) <==> dir.Ok? && Lookup(dir.value, path[|path| - 1]) == Some(e)
      {
        EntryAtIff(objects, commit, path, e);
      }
    } else {
      NoEntryNamed(objects, commit, path);
    }
  }

  /** There is no hash exactly when a path other than the root names no entry: it ends in none, its
      directory has none, or its directory is not found. */
  lemma NoPathHashIff(objects: Objects, commit: Oid, path: Path)
    ensures PathHash(objects, commit, path) == Ok(None) <==>
            && path != []
            && (NamesEntry(path) ==>
                  var dir := DirAt(objects, commit, path[..|path| - 1]);
                  if dir.Ok? then NoEntry(dir.value, path[|path| - 1]) else dir.error.NotFound?)
  {
    hide DirAt;
    NamingIsFileName(path);
    if NamesEntry(path) {
      var dir := DirAt(objects, commit, path[..|path| - 1]);
      if dir.Ok? {
        LookupIsFirst(dir.value, path[|path| - 1], Entry("", BlobMode, 0));
      }
    }
  }

  /** Any other failure is the directory's, or an unreadable commit's. */
  lemma PathHashFails(objects: Objects, commit: Oid, path: Path)
    requires PathHash(objects, commit, path).Err?
    ensures if path == [] then PathHash(objects, commit, path) == Err(ReadError)
            else NamesEntry(path) && var dir := DirAt(objects, commit, path[..|path| - 1]);
                 dir.Err? && PathHash(objects, commit, path) == Err(dir.error)
  {
    hide DirAt;
    NamingIsFileName(path);
  }

  /** A walk along two paths in sequence is a walk along the first, then along the second. */
  lemma {:induction false} WalkInTwo(objects: Objects, tree: Tree, p: Path, q: Path, walked: Path, full: Path)
    requires Walk(objects, tree, p, walked, full).Ok?
    ensures Walk(objects, tree, p + q, walked, full) ==
            Walk(objects, Walk(objects, tree, p, walked, full).value, q, walked + Named(p), full)
    decreases |p|
  {
    if p == [] {
      assert p + q == q && walked + Named(p) == walked;
    } else {
      assert (p + q)[0] == p[0] && (p + q)[1..] == p[1..] + q;
      if p[0] == "." {
        WalkInTwo(objects, tree, p[1..], q, walked, full);
        assert Named(p) == Named(p[1..]);
      } else {
        var next := ReadTree(objects, Lookup(tree, p[0]).value.oid).value;
        WalkInTwo(objects, next, p[1..], q, walked + [p[0]], full);
        assert walked + Named(p) == walked + [p[0]] + Named(p[1..]);
      }
    }
  }

  /** Whether a walk succeeds does not depend on the path reported in its errors. */
  lemma {:induction false} WalkIgnoresFull(objects: Objects, tree: Tree, p: Path, walked: Path, full: Path, other: Path)
    requires Walk(objects, tree, p, walked, full).Ok?
    ensures Walk(objects, tree, p, walked, other) == Walk(objects, tree, p, walked, full)
    decreases |p|
  {
    if p != [] {
      if p[0] == "." {
        WalkIgnoresFull(objects, tree, p[1..], walked, full, other);
      } else {
        var next := ReadTree(objects, Lookup(tree, p[0]).value.oid).value;
        WalkIgnoresFull(objects, next, p[1..], walked + [p[0]], full, other);
      }
    }
  }

  /** What is read below a directory is a function of the directory's hash. */
  function Below(objects: Objects, oid: Oid, path: Path, rest: Path): Result<Tree, FileError> {
    match ReadTree(objects, oid)
    case None => Err(ReadError)
    case Some(tree) => Walk(objects, tree, rest, Named(path), path + rest)
  }

  lemma DirBelow(objects: Objects, commit: Oid, path: Path, rest: Path)
    requires IsDirectory(objects, commit, path)
    ensures PathHash(objects, commit, path).Ok? && PathHash(objects, commit, path).value.Some?
    ensures DirAt(objects, commit, path + rest) == Below(objects, PathHash(objects, commit, path).value.value, path, rest)
  {
    if path == [] {
      assert path + rest == rest && Named(path) == [];
    } else {
      DirBelowEntry(objects, commit, path, rest);
    }
  }

  lemma DirBelowEntry(objects: Objects, commit: Oid, path: Path, rest: Path)
    requires IsDirectory(objects, commit, path) && path != []
    ensures PathHash(objects, commit, path).Ok? && PathHash(objects, commit, path).value.Some?
    ensures DirAt(objects, commit, path + rest) == Below(objects, PathHash(objects, commit, path).value.value, path, rest)
  {
    var dir, name, full := path[..|path| - 1], path[|path| - 1], path + rest;
    ParentOfNamed(path);
    var root := ReadTree(objects, ReadCommit(objects, commit).value).value;
    var tree := DirAt(objects, commit, dir).value;
    WalkIgnoresFull(objects, root, dir, [], dir, full);
    WalkInTwo(objects, root, dir, [name] + rest, [], full);
    assert full == dir + ([name] + rest);
    assert ([name] + rest)[1..] == rest;
    NamedOfNamed(path);
    assert [] + Named(dir) == Named(dir);
    assert DirAt(objects, commit, full) == Walk(objects, tree, [name] + rest, Named(dir), full);
  }

  lemma ParentOfNamed(path: Path)
    requires FileName(path).Some?
    ensures FileName(path).value == path[|path| - 1]
    ensures Parent(path) == Some(path[..|path| - 1])
  {
  }

  lemma {:induction false} NamedOfNamed(path: Path)
    requires path != [] && path[|path| - 1] != "."
    ensures Named(path) == Named(path[..|path| - 1]) + [path[|path| - 1]]
    decreases |path|
  {
    if |path| > 1 {
      NamedOfNamed(path[1..]);
      assert path[1..][..|path| - 2] == path[..|path| - 1][1..];
    }
  }

  /** If two commits have the same hash at a path that is a directory in both, everything read at
      or below that path is the same, errors included. */
  lemma SameHashReadsTheSame(objects: Objects, a: Oid, b: Oid, path: Path, rest: Path)
    requires IsDirectory(objects, a, path) && IsDirectory(objects, b, path)
    requires PathHash(objects, a, path) == PathHash(objects, b, path)
    ensures DirAt(objects, a, path + rest) == DirAt(objects, b, path + rest)
    ensures ReadFile(objects, a, path + rest) == ReadFile(objects, b, path + rest)
    ensures PathHash(objects, a, path + rest) == PathHash(objects, b, path + rest)
  {
    DirBelow(objects, a, path, rest);
    DirBelow(objects, b, path, rest);
    if rest == [] {
      assert path + rest == path;
      DirectoryIsNoFile(objects, a, path);
      DirectoryIsNoFile(objects, b, path);
    } else {
      var full := path + rest;
      assert full[..|full| - 1] == path + rest[..|rest| - 1];
      DirBelow(objects, a, path, rest[..|rest| - 1]);
      DirBelow(objects, b, path, rest[..|rest| - 1]);
      if FileName(full).Some? {
        ParentOfNamed(full);
      }
    }
  }

  lemma DirectoryIsNoFile(objects: Objects, commit: Oid, path: Path)
    requires IsDirectory(objects, commit, path)
    ensures ReadFile(objects, commit, path) == if path == [] then Err(NotFound(path)) else Err(NotAFile(path))
  {
  }

  /** A file that can be read is the blob stored under the hash of its path. */
  lemma FileIsBlobAtHash(objects: Objects, commit: Oid, path: Path)
    requires ReadFile(objects, commit, path).Ok?
    ensures PathHash(objects, commit, path).Ok? && PathHash(objects, commit, path).value.Some?
    ensures ReadBlob(objects, PathHash(objects, commit, path).value.value) == Some(ReadFile(objects, commit, path).value)
  {
  }
}
