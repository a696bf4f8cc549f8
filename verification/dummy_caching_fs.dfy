/**
 * A dummy file system that caches the files it finds by path and keeps a map from open
 * projects to their ids (location hashes).
 *
 * The lookup of a path (the subclass's `findFileByPathInner`), the validity of a file and
 * the open state of a project are supplied by the caller as functions, since they live in
 * code outside this model. A project's location hash is part of the project value.
 */
module DummyCachingFs {
  import opened Options

  /** A file handed out by the file system; `serial` stands for object identity. */
  datatype VirtualFile = VirtualFile(serial: nat, path: string, name: string)

  datatype Project = Project(serial: nat, locationHash: string)

  /**
   * The outcome of a renaming. The default renaming is not implemented and always fails;
   * `Renamed` is the outcome of a subclass's renaming, which is not part of this model.
   */
  datatype RenameOutcome = Renamed | Unsupported

  /** The file cache: a path maps to the file found for it, or to None when none was found. */
  type Cache = map<string, Option<VirtualFile>>

  /** A lookup through the cache: the file returned and the cache after the lookup. */
  datatype Fetched = Fetched(file: Option<VirtualFile>, cache: Cache)

  /** Whether the cache holds a usable entry for the path: a missing file, or a file still valid. */
  predicate Usable(cache: Cache, path: string, isValid: VirtualFile -> bool) {
    path in cache && (cache[path].None? || isValid(cache[path].value))
  }

  /**
   * findFileByPath: a usable cached entry is returned as it is; otherwise (no entry, or an
   * entry whose file is no longer valid) the path is looked up afresh and the result cached.
   */
  function Fetch(cache: Cache, path: string, lookup: string -> Option<VirtualFile>, isValid: VirtualFile -> bool): (f: Fetched)
    ensures path in f.cache && f.cache[path] == f.file
    ensures forall p :: p in cache && p != path ==> p in f.cache && f.cache[p] == cache[p]
    ensures f.cache.Keys == cache.Keys + {path}
    ensures Usable(cache, path, isValid) ==> f.file == cache[path] && f.cache == cache
    ensures !Usable(cache, path, isValid) ==> f.file == lookup(path)
  {
    if Usable(cache, path, isValid) then Fetched(cache[path], cache)
    else Fetched(lookup(path), cache[path := lookup(path)])
  }

  /** The paths the cache maps to the file `f`. */
  function PathsOf(cache: Cache, f: VirtualFile): set<string> {
    set p | p in cache && cache[p] == Some(f)
  }

  /** The files of the cache's entries, without the missing ones, counted once per entry. */
  ghost function NotNullValues(cache: Cache): (r: multiset<VirtualFile>)
    ensures forall f :: r[f] == |PathsOf(cache, f)|
    decreases |cache|
  {
    if cache == map[] then multiset{}
    else
      var p :| p in cache;
      var rest := NotNullValues(cache - {p});
      PathsOfRemove(cache, p);
      if cache[p].Some? then rest + multiset{cache[p].value} else rest
  }

  lemma PathsOfRemove(cache: Cache, p: string)
    requires p in cache
    ensures forall f :: |PathsOf(cache, f)| == |PathsOf(cache - {p}, f)| + (if cache[p] == Some(f) then 1 else 0)
  {
    forall f ensures |PathsOf(cache, f)| == |PathsOf(cache - {p}, f)| + (if cache[p] == Some(f) then 1 else 0) {
      if cache[p] == Some(f) {
        assert PathsOf(cache, f) == PathsOf(cache - {p}, f) + {p};
      } else {
        assert PathsOf(cache, f) == PathsOf(cache - {p}, f);
      }
    }
  }

  /** The projects the map gives the id `id`. */
  function ProjectsWithId(project2Id: map<Project, string>, id: string): (r: set<Project>)
    ensures forall p :: p in r <==> p in project2Id && project2Id[p] == id
  {
    set p | p in project2Id && project2Id[p] == id
  }

  /** getProject: the project with that id when exactly one project has it, otherwise none. */
  function ProjectById(project2Id: map<Project, string>, id: string): (r: Option<Project>)
    ensures r.Some? ==> r.value in project2Id && project2Id[r.value] == id
    ensures r.Some? ==> forall q :: q in project2Id && project2Id[q] == id ==> q == r.value
    ensures r.None? ==> (forall q :: q in project2Id ==> project2Id[q] != id) ||
                        exists q1, q2 :: q1 in project2Id && q2 in project2Id && q1 != q2 && project2Id[q1] == id && project2Id[q2] == id
  {
    var ps := ProjectsWithId(project2Id, id);
    if |ps| != 1 then
      if ps != {} then
        var q1 :| q1 in ps;
        assert |ps - {q1}| == |ps| - 1;
        var q2 :| q2 in ps - {q1};
        None
      else None
    else
      SingletonElement(ps);
      var p :| p in ps;
      Some(p)
  }

  lemma SingletonElement<T>(s: set<T>)
    requires |s| == 1
    ensures forall x, y :: x in s && y in s ==> x == y
  {
    var x :| x in s;
    assert |s - {x}| == 0;
    assert forall y :: y in s ==> y == x by {
      forall y | y in s ensures y == x {
        assert y != x ==> y in s - {x};
      }
    }
  }

  /** The projects of `ps` that are open registered one by one, as initProjectMap does. */
  function Registered(project2Id: map<Project, string>, ps: seq<Project>, isOpen: Project -> bool): map<Project, string>
    decreases |ps|
  {
    if ps == [] then project2Id
    else
      var before := Registered(project2Id, ps[..|ps| - 1], isOpen);
      var p := ps[|ps| - 1];
      if isOpen(p) then before[p := p.locationHash] else before
  }

  /**
   * The projects of `ps` for which registration one by one reports the error about a project
   * already registered under the same id, in list order.
   */
  function Duplicates(project2Id: map<Project, string>, ps: seq<Project>, isOpen: Project -> bool): seq<Project>
    decreases |ps|
  {
    if ps == [] then []
    else
      var init := ps[..|ps| - 1];
      var before := Registered(project2Id, init, isOpen);
      var p := ps[|ps| - 1];
      if isOpen(p) && exists q :: q in before && q != p && before[q] == p.locationHash then
        Duplicates(project2Id, init, isOpen) + [p]
      else
        Duplicates(project2Id, init, isOpen)
  }

  /** Whether some project of `ps` is open. */
  predicate AnyOpen(ps: seq<Project>, isOpen: Project -> bool) {
    exists i :: 0 <= i < |ps| && isOpen(ps[i])
  }

  class DummyCachingFileSystem {
    const protocol: string
    var cachedFiles: Cache
    var project2Id: map<Project, string>

    /** A file system for the protocol, with the open projects among `openProjects` registered. */
    constructor (protocol: string, openProjects: seq<Project>, isOpen: Project -> bool)
      ensures this.protocol == protocol
      ensures cachedFiles == map[]
      ensures project2Id == Registered(map[], openProjects, isOpen)
    {
      this.protocol := protocol;
      cachedFiles := map[];
      project2Id := map[];
      new;
      var reported := InitProjectMap(openProjects, isOpen);
    }

    /** createRoot: this file system never creates a root. */
    function CreateRoot(name: string): (r: Option<VirtualFile>)
      ensures r == None
    {
      None
    }

    method FindFileByPath(path: string, lookup: string -> Option<VirtualFile>, isValid: VirtualFile -> bool) returns (r: Option<VirtualFile>)
      modifies this`cachedFiles
      ensures r == Fetch(old(cachedFiles), path, lookup, isValid).file
      ensures cachedFiles == Fetch(old(cachedFiles), path, lookup, isValid).cache
    {
      if path in cachedFiles && (cachedFiles[path].None? || isValid(cachedFiles[path].value)) {
        r := cachedFiles[path];
      } else {
        cachedFiles := cachedFiles - {path};
        r := lookup(path);
        cachedFiles := cachedFiles[path := r];
      }
    }

    /** getProject. */
    function GetProject(id: string): (r: Option<Project>)
      reads this
      ensures r.Some? <==> |ProjectsWithId(project2Id, id)| == 1
      ensures r.Some? ==> ProjectsWithId(project2Id, id) == {r.value}
    {
      var r := ProjectById(project2Id, id);
      if r.Some? then
        assert ProjectsWithId(project2Id, id) == {r.value};
        r
      else
        r
    }

    /** getCachedFiles: the files (not the missing ones) the cache holds, a file once for every path it is cached under. */
    ghost function CachedFiles(): (r: multiset<VirtualFile>)
      reads this
      ensures forall f :: r[f] == |PathsOf(cachedFiles, f)|
    {
      NotNullValues(cachedFiles)
    }

    method OnProjectClosed(project: Project)
      modifies this`cachedFiles, this`project2Id
      ensures cachedFiles == map[]
      ensures project2Id == old(project2Id) - {project}
    {
      ClearCache();
      project2Id := project2Id - {project};
    }

    /** onProjectOpened; `duplicate` is whether the error about a second project with that id is reported. */
    method OnProjectOpened(project: Project) returns (duplicate: bool)
      modifies this`cachedFiles, this`project2Id
      ensures cachedFiles == map[]
      ensures project2Id == old(project2Id)[project := project.locationHash]
      ensures duplicate <==> exists q :: q in old(project2Id) && q != project && old(project2Id)[q] == project.locationHash
    {
      ClearCache();
      var projectId := project.locationHash;
      project2Id := project2Id[project := projectId];
      var projects := ProjectsWithId(project2Id, projectId);
      duplicate := |projects| > 1;
      assert project in projects;
      if duplicate {
        assert |projects - {project}| == |projects| - 1;
        ghost var q :| q in projects - {project};
        assert q in old(project2Id) && old(project2Id)[q] == projectId;
      } else {
        SingletonElement(projects);
      }
    }

    /** initProjectMap: every open project of the list is registered, in list order. */
    method InitProjectMap(openProjects: seq<Project>, isOpen: Project -> bool) returns (reported: seq<Project>)
      modifies this`cachedFiles, this`project2Id
      ensures project2Id == Registered(old(project2Id), openProjects, isOpen)
      ensures reported == Duplicates(old(project2Id), openProjects, isOpen)
      ensures AnyOpen(openProjects, isOpen) ==> cachedFiles == map[]
      ensures !AnyOpen(openProjects, isOpen) ==> cachedFiles == old(cachedFiles)
    {
      reported := [];
      var i := 0;
      while i < |openProjects|
        invariant 0 <= i <= |openProjects|
        invariant project2Id == Registered(old(project2Id), openProjects[..i], isOpen)
        invariant reported == Duplicates(old(project2Id), openProjects[..i], isOpen)
        invariant AnyOpen(openProjects[..i], isOpen) ==> cachedFiles == map[]
        invariant !AnyOpen(openProjects[..i], isOpen) ==> cachedFiles == old(cachedFiles)
      {
        var project := openProjects[i];
        assert openProjects[..i + 1][..i] == openProjects[..i];
        assert AnyOpen(openProjects[..i + 1], isOpen) <==> AnyOpen(openProjects[..i], isOpen) || isOpen(project) by {
          assert forall k :: 0 <= k < i ==> openProjects[..i + 1][k] == openProjects[..i][k];
        }
        if isOpen(project) {
          var duplicate := OnProjectOpened(project);
          if duplicate {
            reported := reported + [project];
          }
        }
        i := i + 1;
      }
      assert openProjects[..i] == openProjects;
    }

    method ClearCache()
      modifies this`cachedFiles
      ensures cachedFiles == map[]
    {
      cachedFiles := map[];
    }

    method Cleanup()
      modifies this`cachedFiles, this`project2Id
      ensures cachedFiles == map[] && project2Id == map[]
    {
      ClearCache();
      project2Id := map[];
    }

    /** renameFile with the default doRenameFile, which fails: the entry is dropped before, and put back after. */
    method RenameFile(file: VirtualFile, newName: string) returns (r: RenameOutcome)
      modifies this`cachedFiles
      ensures r == Unsupported
      ensures cachedFiles == old(cachedFiles)[file.path := Some(file)]
    {
      BeforeFileRename(file, newName);
      r := DoRenameFile(file, newName);
      FileRenamed(file, newName);
    }

    method BeforeFileRename(file: VirtualFile, newName: string)
      modifies this`cachedFiles
      ensures cachedFiles == old(cachedFiles) - {file.path}
    {
      cachedFiles := cachedFiles - {file.path};
    }

    method FileRenamed(file: VirtualFile, newName: string)
      modifies this`cachedFiles
      ensures cachedFiles == old(cachedFiles)[file.path := Some(file)]
    {
      cachedFiles := cachedFiles[file.path := Some(file)];
    }
  }

  /** doRenameFile as this class defines it: not implemented. */
  function DoRenameFile(file: VirtualFile, newName: string): (r: RenameOutcome)
    ensures r == Unsupported
  {
    Unsupported
  }

  /** A second lookup of the same path is served from the cache, whatever the lookup function, when the first found no file or a valid one. */
  lemma FetchTwice(cache: Cache, path: string, lookup: string -> Option<VirtualFile>, lookup2: string -> Option<VirtualFile>, isValid: VirtualFile -> bool)
    requires var f := Fetch(cache, path, lookup, isValid); f.file.None? || isValid(f.file.value)
    ensures var f := Fetch(cache, path, lookup, isValid);
            Fetch(f.cache, path, lookup2, isValid) == f
  {
  }

  /** After a rename the file is found under its path without a lookup while it stays valid, and looked up afresh once it is not. */
  lemma FetchAfterRename(cache: Cache, file: VirtualFile, lookup: string -> Option<VirtualFile>, isValid: VirtualFile -> bool)
    ensures var f := Fetch(cache[file.path := Some(file)], file.path, lookup, isValid);
            && (isValid(file) ==> f.file == Some(file))
            && (!isValid(file) ==> f.file == lookup(file.path))
  {
  }

  /** Registration in list order: every open project of the list maps to its location hash, every other project keeps its entry. */
  lemma {:induction false} RegisteredSpec(project2Id: map<Project, string>, ps: seq<Project>, isOpen: Project -> bool)
    ensures forall p :: p in Registered(project2Id, ps, isOpen) <==> p in project2Id || (p in ps && isOpen(p))
    ensures forall p :: p in ps && isOpen(p) ==> Registered(project2Id, ps, isOpen)[p] == p.locationHash
    ensures forall p :: p in project2Id && !(p in ps && isOpen(p)) ==> Registered(project2Id, ps, isOpen)[p] == project2Id[p]
    decreases |ps|
  {
    if ps != [] {
      var init := ps[..|ps| - 1];
      RegisteredSpec(project2Id, init, isOpen);
      assert ps == init + [ps[|ps| - 1]];
      assert forall p :: p in ps <==> p in init || p == ps[|ps| - 1];
    }
  }

  /** Only open projects of the list are reported as duplicates. */
  lemma {:induction false} DuplicatesOpen(project2Id: map<Project, string>, ps: seq<Project>, isOpen: Project -> bool)
    ensures forall p :: p in Duplicates(project2Id, ps, isOpen) ==> p in ps && isOpen(p)
    decreases |ps|
  {
    if ps != [] {
      var init := ps[..|ps| - 1];
      DuplicatesOpen(project2Id, init, isOpen);
      assert ps == init + [ps[|ps| - 1]];
    }
  }

  /** The open projects' ids differ from each other and from every id already registered to another project. */
  ghost predicate UniqueIds(project2Id: map<Project, string>, ps: seq<Project>, isOpen: Project -> bool) {
    && (forall i, j :: 0 <= i < |ps| && 0 <= j < |ps| && isOpen(ps[i]) && isOpen(ps[j]) && ps[i] != ps[j] ==>
          ps[i].locationHash != ps[j].locationHash)
    && (forall q, i :: q in project2Id && 0 <= i < |ps| && isOpen(ps[i]) && q != ps[i] ==>
          project2Id[q] != ps[i].locationHash)
  }

  /** With unique ids, registration reports no duplicate. */
  lemma {:induction false} UniqueIdsNoDuplicates(project2Id: map<Project, string>, ps: seq<Project>, isOpen: Project -> bool)
    requires UniqueIds(project2Id, ps, isOpen)
    ensures Duplicates(project2Id, ps, isOpen) == []
    decreases |ps|
  {
    if ps != [] {
      var init := ps[..|ps| - 1];
      var p := ps[|ps| - 1];
      assert forall i :: 0 <= i < |init| ==> init[i] == ps[i];
      UniqueIdsNoDuplicates(project2Id, init, isOpen);
      var before := Registered(project2Id, init, isOpen);
      RegisteredSpec(project2Id, init, isOpen);
      if isOpen(p) {
        forall q | q in before && q != p
          ensures before[q] != p.locationHash
        {
          if q in init && isOpen(q) {
            var i :| 0 <= i < |init| && init[i] == q;
            assert ps[i] == q;
          } else {
            assert q in project2Id;
          }
        }
      }
    }
  }

  /** An opened project is found by its id exactly when no other project has that id. */
  lemma OpenedThenFound(project2Id: map<Project, string>, p: Project)
    ensures ProjectById(project2Id[p := p.locationHash], p.locationHash) == Some(p) <==>
            forall q :: q in project2Id && q != p ==> project2Id[q] != p.locationHash
  {
    var m := project2Id[p := p.locationHash];
    var r := ProjectById(m, p.locationHash);
    if forall q :: q in project2Id && q != p ==> project2Id[q] != p.locationHash {
      assert p in m && m[p] == p.locationHash;
      assert r.Some?;
    } else {
      var q :| q in project2Id && q != p && project2Id[q] == p.locationHash;
      assert q in m && m[q] == p.locationHash;
    }
  }

  /** A closed project is no longer found under any id. */
  lemma ClosedThenGone(project2Id: map<Project, string>, p: Project, id: string)
    ensures ProjectById(project2Id - {p}, id) != Some(p)
  {
  }
}
