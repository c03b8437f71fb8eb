/**
 * The namespace as its callers see it: a tree of directories and paths, the tree the stored index would restore,
 * and the files behind open handles. Every namespace operation, over every run, is a step on this simple state.
 */
module Desk {
  import opened Keys
  import opened Namespace
  import opened NamespaceSafety
  import opened Renames
  import opened FileView

  datatype Tree = Tree(dirs: set<string>, paths: map<string, string>)

  datatype Desk = Desk(tree: Tree, saved: Tree, open: map<nat, string>, nextFile: nat)

  function TreeOf(dirs: Dirs, files: Files): Tree {
    Tree(dirs.Keys, PathsOf(files))
  }

  function OpenFiles(s: Ns): map<nat, string> {
    map h | h in s.handles && s.handles[h].key in s.files :: s.files[s.handles[h].key].fileId
  }

  function DeskOf(s: Ns): Desk {
    Desk(TreeOf(s.dirs, s.files), TreeOf(s.index.dirs, s.index.files), OpenFiles(s), s.nextFile)
  }

  predicate IsDir(t: Tree, key: string) {
    key == "" || key in t.dirs
  }

  /** The tree without the directory, or else the file, under `key`. */
  function Without(t: Tree, key: string): Tree {
    if IsDir(t, key) then Tree(t.dirs - {key}, t.paths) else Tree(t.dirs, t.paths - {key})
  }

  ghost function FileImages(keys: set<string>, source: string, target: string): set<string> {
    set k | k in keys :: FileImage(k, source, target)
  }

  /** `u` is `t` with everything at and below `source` carried to `target`. */
  ghost predicate TreeMoved(t: Tree, u: Tree, source: string, target: string) {
    && u.dirs == (set k | k in t.dirs :: DirImage(k, source, target))
    && u.paths.Keys == FileImages(t.paths.Keys, source, target)
    && (forall k <- t.paths :: u.paths[FileImage(k, source, target)] == t.paths[k])
    && |u.paths| == |t.paths|
  }

  /** `u` is what a successful call makes of `t`. */
  ghost predicate Reaches(t: Tree, e: Event, nextFile: nat, u: Tree) {
    match e
    case CreateDirectoryCall(path, _, _) => u == Tree(t.dirs + {path.key}, t.paths)
    case CreateOrOpenCall(path, _, _, _, _) =>
      u == if path.key in t.paths then t else Tree(t.dirs, t.paths[path.key := FileIdOf(nextFile)])
    case RenameCall(source, target, replace, _, _, _) =>
      if IsDir(t, source.key)
      then TreeMoved(if replace then Without(t, target.key) else t, u, source.key, target.key)
      else source.key in t.paths && u == Tree(t.dirs, (t.paths - {source.key})[target.key := t.paths[source.key]])
    case DeleteCall(key, _) => u == Without(t, key)
    case _ => u == t
  }

  predicate Replaces(e: Event) {
    e.RenameCall? && e.replace
  }

  /** Trees a call goes through: the one before, the one after, and for a replacing rename the cleared one. */
  ghost predicate Passes(t: Tree, e: Event, nextFile: nat, u: Tree) {
    u == t || Reaches(t, e, nextFile, u) || (Replaces(e) && u == Without(t, e.target.key))
  }

  /** Only opening, closing and reopening change which files are open, and never the file behind a handle. */
  ghost predicate OpenStep(a: Desk, e: Event, ok: bool, b: Desk) {
    match e
    case CreateOrOpenCall(path, _, _, _, _) =>
      if ok
      then path.key in b.tree.paths && exists h: nat :: h !in a.open && b.open == a.open[h := b.tree.paths[path.key]]
      else b.open == a.open
    case CloseHandleCall(h, _) => b.open == a.open - {h}
    case Reopen => b.open == map[]
    case _ => b.open == a.open
  }

  /** Success reaches the goal; failure changes nothing, except that a replacing rename may have cleared its target. */
  ghost predicate TreeStep(a: Desk, e: Event, ok: bool, b: Desk) {
    if e.Reopen? then b.tree == a.saved == b.saved
    else
      && (ok ==> Reaches(a.tree, e, a.nextFile, b.tree) && (b.saved == a.saved || b.saved == b.tree))
      && (!ok ==> b.tree == a.tree || (Replaces(e) && b.tree == Without(a.tree, e.target.key)))
      && (b.saved == a.saved || Passes(a.tree, e, a.nextFile, b.saved))
  }

  /** The counter moves on whenever a new id may have come into use. */
  ghost predicate CounterStep(a: Desk, e: Event, b: Desk) {
    && a.nextFile <= b.nextFile <= a.nextFile + 1
    && (e.CreateOrOpenCall? && (b.tree != a.tree || b.saved != a.saved) && e.path.key !in a.tree.paths
        ==> b.nextFile == a.nextFile + 1)
  }

  ghost predicate Step(a: Desk, e: Event, ok: bool, b: Desk) {
    TreeStep(a, e, ok, b) && OpenStep(a, e, ok, b) && CounterStep(a, e, b)
  }

  predicate Succeeded(s: Ns, e: Event) {
    match e
    case CreateDirectoryCall(path, now, p) => CreateDirectory(s, path, now, p).1.Ok?
    case CreateOrOpenCall(path, create, allowDelete, now, p) => CreateOrOpen(s, path, create, allowDelete, now, p).1.Ok?
    case UseHandleCall(h, wrote, done, now) => UseHandle(s, h, wrote, done, now).1.Ok?
    case FlushHandleCall(h, staged, done, now, p) => FlushHandle(s, h, staged, done, now, p).1.Ok?
    case CloseHandleCall(h, p) => CloseHandle(s, h, p).1.Ok?
    case ReadPathCall(key, done, now) => ReadPath(s, key, done, now).1.Ok?
    case RenameCall(source, target, replace, now, pd, p) => Rename(s, source, target, replace, now, pd, p).1.Ok?
    case DeleteCall(key, p) => Delete(s, key, p).1.Ok?
    case Reopen => true
  }

  // ----- the parts of an operation, seen on the desk -----

  lemma IndexShowsTree(s: Ns)
    ensures TreeOf(IndexOf(s).dirs, IndexOf(s).files) == TreeOf(s.dirs, s.files)
  {
    assert PathsOf(Visible(s.files)) == PathsOf(s.files);
  }

  /** Writing the index shows the new state when it succeeds, the old one when it fails, and saves either. */
  lemma PersistedDesk(before: Ns, after: Ns, p: Persist)
    requires before.index == after.index && before.nextFile == after.nextFile
    ensures var (t, r) := Persisted(before, after, p);
            && (r.Ok? <==> p == Written)
            && DeskOf(t) == Desk(
                 if p == Written then DeskOf(after).tree else DeskOf(before).tree,
                 if p == Refused then DeskOf(before).saved else DeskOf(after).tree,
                 if p == Written then DeskOf(after).open else DeskOf(before).open,
                 before.nextFile)
  {
    IndexShowsTree(after);
  }

  lemma StampDesk(s: Ns, key: string, read: bool, wrote: bool, now: nat)
    ensures DeskOf(Stamp(s, key, read, wrote, now)) == DeskOf(s)
  {
    StampKeepsView(s, key, read, wrote, now);
    assert OpenFiles(Stamp(s, key, read, wrote, now)) == OpenFiles(s);
  }

  lemma CreateDirectoryRefines(s: Ns, path: VPath, now: nat, p: Persist)
    ensures var (t, r) := CreateDirectory(s, path, now, p);
            Step(DeskOf(s), CreateDirectoryCall(path, now, p), r.Ok?, DeskOf(t))
  {
    hide PathsOf, OpenFiles;
    var m := s.(dirs := s.dirs[path.key := DirEntry(path.name, AllTimes(now))]);
    SameOpen(s, m);
    PersistedDesk(s, m, p);
  }

  lemma SameOpen(s: Ns, t: Ns)
    requires t.files == s.files && t.handles == s.handles
    ensures OpenFiles(t) == OpenFiles(s)
  {
  }

  lemma OpenRefines(s: Ns, path: VPath, create: bool, allowDelete: bool, now: nat, p: Persist)
    requires Inv(s)
    ensures var (t, r) := CreateOrOpen(s, path, create, allowDelete, now, p);
            Step(DeskOf(s), CreateOrOpenCall(path, create, allowDelete, now, p), r.Ok?, DeskOf(t))
  {
    hide Inv, Stamp, NewFile, DeskOf, HasParent;
    if path.key in s.files {
      if !s.files[path.key].deletePending {
        StampDesk(s, path.key, true, false, now);
        StampKeepsView(s, path.key, true, false, now);
        NewHandleDesk(s, Stamp(s, path.key, true, false, now), path.key, allowDelete);
        DeskParts(s);
      } else {
        UnchangedStep(s, CreateOrOpenCall(path, create, allowDelete, now, p));
      }
    } else if create && HasParent(s.dirs, path.key) {
      CreateRefines(s, path, create, allowDelete, now, p);
    } else {
      UnchangedStep(s, CreateOrOpenCall(path, create, allowDelete, now, p));
    }
  }

  lemma DeskParts(s: Ns)
    ensures DeskOf(s).tree.paths == View(s) && DeskOf(s).open == OpenFiles(s) && DeskOf(s).nextFile == s.nextFile
  {
  }

  /** A failed call that leaves the namespace alone. */
  lemma UnchangedStep(s: Ns, e: Event)
    requires !e.Reopen? && !e.CloseHandleCall?
    ensures Step(DeskOf(s), e, false, DeskOf(s))
  {
  }

  lemma NewHandleDesk(s: Ns, m: Ns, key: string, allowDelete: bool)
    requires Inv(s) && m.handles == s.handles && m.nextHandle == s.nextHandle && s.files.Keys <= m.files.Keys
    requires (forall k <- s.files :: m.files[k].fileId == s.files[k].fileId) && key in View(m)
    ensures var (t, r) := NewHandle(m, key, allowDelete);
            && r.Ok? && r.value !in OpenFiles(s)
            && DeskOf(t) == DeskOf(m).(open := OpenFiles(s)[r.value := View(m)[key]])
  {
    hide Consistent;
    var (t, r) := NewHandle(m, key, allowDelete);
    forall h <- s.handles ensures s.handles[h].key in s.files && h != r.value {}
    assert OpenFiles(t) == OpenFiles(s)[r.value := View(m)[key]];
  }

  lemma CreateRefines(s: Ns, path: VPath, create: bool, allowDelete: bool, now: nat, p: Persist)
    requires Inv(s) && path.key !in s.files && create && HasParent(s.dirs, path.key)
    ensures var (t, r) := CreateOrOpen(s, path, create, allowDelete, now, p);
            Step(DeskOf(s), CreateOrOpenCall(path, create, allowDelete, now, p), r.Ok?, DeskOf(t))
  {
    hide Inv, NewFile, PathsOf, OpenFiles, HasParent;
    var m := NewFile(s, path, now);
    var before := s.(nextFile := s.nextFile + 1);
    NewFileView(s, path, now);
    NewFileParts(s, path, now);
    PersistedDesk(before, m, p);
    SameOpen(s, before);
    NotListed(s, path.key);
    if p == Written {
      var saved := m.(index := IndexOf(m));
      NewHandleDesk(s, saved, path.key, allowDelete);
      var t := CreateOrOpen(s, path, create, allowDelete, now, p).0;
      assert DeskOf(t).open == DeskOf(s).open[s.nextHandle := DeskOf(t).tree.paths[path.key]];
    }
  }

  lemma Listed(s: Ns, key: string)
    requires key in s.files && !s.files[key].deletePending
    ensures key in View(s) && View(s)[key] == s.files[key].fileId
  {
  }

  lemma NotListed(s: Ns, key: string)
    requires key !in s.files
    ensures key !in View(s)
  {
  }

  lemma NewFileParts(s: Ns, path: VPath, now: nat)
    ensures var m := NewFile(s, path, now); m.dirs == s.dirs && m.index == s.index && m.nextFile == s.nextFile + 1
  {
  }

  lemma CloseRefines(s: Ns, h: nat, p: Persist)
    requires Inv(s)
    ensures var (t, r) := CloseHandle(s, h, p); Step(DeskOf(s), CloseHandleCall(h, p), r.Ok?, DeskOf(t))
  {
    hide Inv, OpenFiles, PathsOf;
    CloseKeepsView(s, h, p);
    CloseOpenFiles(s, h, p);
    if h in s.handles {
      var key := s.handles[h].key;
      var u := s.(handles := s.handles - {h});
      PersistedDesk(u, u.(files := u.files - {key}), p);
      if key in s.files && s.files[key].deletePending { MarkedIsHidden(s, key); }
    }
  }

  lemma MarkedIsHidden(s: Ns, key: string)
    requires key in s.files ==> s.files[key].deletePending
    ensures PathsOf(s.files - {key}) == PathsOf(s.files)
  {
  }

  lemma CloseOpenFiles(s: Ns, h: nat, p: Persist)
    requires Inv(s)
    ensures OpenFiles(CloseHandle(s, h, p).0) == OpenFiles(s) - {h}
  {
    hide Consistent;
    var t := CloseHandle(s, h, p).0;
    forall g <- t.handles ensures s.handles[g].key in s.files {}
  }

  /** Deleting takes the named directory, or else the named file, out of the tree. */
  lemma DeleteRefines(s: Ns, key: string, p: Persist)
    requires Inv(s)
    ensures var (t, r) := Delete(s, key, p); Step(DeskOf(s), DeleteCall(key, p), r.Ok?, DeskOf(t))
    ensures DeskOf(Delete(s, key, p).0).nextFile == s.nextFile
  {
    hide Consistent, HasChildren, IsPinned, PathsOf, OpenFiles;
    if IsDirectory(s, key) {
      var m := s.(dirs := s.dirs - {key});
      SameOpen(s, m);
      PersistedDesk(s, m, p);
    } else if key in s.files && !IsPinned(s, key) {
      DeleteRemovesOne(s, key, p);
      if IsOpen(s, key) {
        MarkedOpen(s, key);
      } else {
        var m := s.(files := s.files - {key});
        ClosedOpen(s, key);
        PersistedDesk(s, m, p);
        RemovedPath(s, key);
      }
    }
  }

  lemma RemovedPath(s: Ns, key: string)
    ensures PathsOf(s.files - {key}) == PathsOf(s.files) - {key}
  {
  }

  lemma MarkedOpen(s: Ns, key: string)
    requires key in s.files
    ensures OpenFiles(s.(files := s.files[key := s.files[key].(deletePending := true)])) == OpenFiles(s)
  {
  }

  lemma ClosedOpen(s: Ns, key: string)
    requires !IsOpen(s, key)
    ensures OpenFiles(s.(files := s.files - {key})) == OpenFiles(s)
  {
  }

  /** Moving one file carries its path and keeps every handle on its file. */
  lemma MoveFileDesk(u: Ns, source: string, target: VPath, now: nat)
    requires Inv(u) && source in u.files && !u.files[source].deletePending && target.key !in u.files
    ensures var m := MoveFile(u, source, target, now);
            && m.dirs == u.dirs && m.index == u.index && m.nextFile == u.nextFile
            && source in View(u) && View(m) == (View(u) - {source})[target.key := View(u)[source]]
            && OpenFiles(m) == OpenFiles(u)
  {
    hide Consistent, OpenFiles;
    var m := MoveFile(u, source, target, now);
    assert View(m) == (View(u) - {source})[target.key := View(u)[source]];
    MoveFileOpen(u, source, target, now);
  }

  lemma MoveFileOpen(u: Ns, source: string, target: VPath, now: nat)
    requires HandlesResolve(u) && source in u.files && target.key !in u.files
    ensures OpenFiles(MoveFile(u, source, target, now)) == OpenFiles(u)
  {
    var m := MoveFile(u, source, target, now);
    forall h <- u.handles ensures h in OpenFiles(m) && OpenFiles(m)[h] == OpenFiles(u)[h] {
      assert u.handles[h].key in u.files;
      assert m.handles[h].key == if u.handles[h].key == source then target.key else u.handles[h].key;
    }
  }

  lemma RenameFileRefines(s: Ns, source: VPath, target: VPath, replace: bool, now: nat, pd: Persist, p: Persist)
    requires Inv(s) && !IsDirectory(s, source.key) && HasParent(s.dirs, target.key)
    requires source.key in s.files && !s.files[source.key].deletePending
    ensures var (t, r) := Rename(s, source, target, replace, now, pd, p);
            Step(DeskOf(s), RenameCall(source, target, replace, now, pd, p), r.Ok?, DeskOf(t))
  {
    hide Inv, Delete, MoveFile, Persisted, DeskOf, HasParent;
    var e := RenameCall(source, target, replace, now, pd, p);
    UnchangedStep(s, e);
    DeskParts(s);
    if target.key !in s.files {
      MovePersisted(s, s, source, target, replace, now, pd, p);
    } else if replace {
      DeleteRefines(s, target.key, pd);
      var (u, r) := Delete(s, target.key, pd);
      ClearedStep(s, u, r.Ok?, source, target, now, pd, p);
      if r.Ok? && target.key !in u.files && source.key in u.files {
        ClearedTarget(s, source.key, target.key, pd);
        MovePersisted(s, u, source, target, replace, now, pd, p);
      }
    }
  }

  /** A target that is really gone was a closed file, and nothing else changed. */
  lemma ClearedTarget(s: Ns, source: string, target: string, pd: Persist)
    requires Inv(s) && source in s.files && !s.files[source].deletePending && target in s.files
    requires var (u, r) := Delete(s, target, pd); r.Ok? && target !in u.files && source in u.files
    ensures var u := Delete(s, target, pd).0;
            && Inv(u) && target !in s.dirs && target != "" && u.dirs == s.dirs && u.nextFile == s.nextFile
            && u.files[source] == s.files[source] && View(u) == View(s) - {target} && OpenFiles(u) == OpenFiles(s)
            && (DeskOf(u).saved == DeskOf(s).saved || DeskOf(u).saved == DeskOf(u).tree)
  {
    hide Consistent, HasChildren, IsPinned, PathsOf, OpenFiles;
    DeleteKeeps(s, target, pd);
    DeleteRefines(s, target, pd);
    DeleteRemovesOne(s, target, pd);
  }

  /** After clearing the target, a rename that goes no further. */
  lemma ClearedStep(s: Ns, u: Ns, ok: bool, source: VPath, target: VPath, now: nat, pd: Persist, p: Persist)
    requires Step(DeskOf(s), DeleteCall(target.key, pd), ok, DeskOf(u)) && DeskOf(u).nextFile == DeskOf(s).nextFile
    ensures Step(DeskOf(s), RenameCall(source, target, true, now, pd, p), false, DeskOf(u))
  {
    hide DeskOf;
  }

  lemma MovePersisted(s: Ns, u: Ns, source: VPath, target: VPath, replace: bool, now: nat, pd: Persist, p: Persist)
    requires Inv(u) && source.key in u.files && target.key !in u.files && !IsDirectory(s, source.key)
    requires source.key in s.files && u.files[source.key] == s.files[source.key] && !s.files[source.key].deletePending
    requires u.nextFile == s.nextFile && OpenFiles(u) == OpenFiles(s) && u.dirs == s.dirs
    requires View(u) == View(s) || (replace && View(u) == View(s) - {target.key} && target.key !in s.dirs
        && target.key != "")
    requires DeskOf(u).saved == DeskOf(s).saved || (replace && DeskOf(u).saved == DeskOf(u).tree)
    ensures var (t, r) := Persisted(u, MoveFile(u, source.key, target, now), p);
            Step(DeskOf(s), RenameCall(source, target, replace, now, pd, p), r.Ok?, DeskOf(t))
  {
    hide Inv, OpenFiles, MoveFile, PathsOf;
    MoveFileDesk(u, source.key, target, now);
    PersistedDesk(u, MoveFile(u, source.key, target, now), p);
    Listed(s, source.key);
    Listed(u, source.key);
    var goal := (View(s) - {source.key})[target.key := View(s)[source.key]];
    assert (View(u) - {source.key})[target.key := View(u)[source.key]] == goal;
  }

  /** Moving a subtree carries every directory and path below it and keeps every handle on its file. */
  lemma MoveTreeDesk(u: Ns, source: string, target: VPath, now: nat)
    requires Inv(u) && Movable(u, source, target.key)
    ensures var m := MoveTree(u, source, target, now);
            && m.index == u.index && m.nextFile == u.nextFile && OpenFiles(m) == OpenFiles(u)
            && TreeMoved(TreeOf(u.dirs, u.files), TreeOf(m.dirs, m.files), source, target.key)
  {
    hide Inv, Movable, MovedDirs, MovedFiles, MovedHandles, OpenFiles, Relocation, DirImage, FileImage, SameOpenFiles;
    var m := MoveTree(u, source, target, now);
    MoveTreeRelocates(u, source, target, now);
    RelocationMovesTree(u, m, source, target, now);
    MovableResolves(u, source, target.key);
    MoveTreeKeepsOpenFiles(u, source, target, now);
    SameFilesOpen(u, m);
  }

  lemma MovableResolves(u: Ns, source: string, target: string)
    requires Movable(u, source, target)
    ensures HandlesResolve(u)
  {
  }

  lemma SameFilesOpen(s: Ns, t: Ns)
    requires HandlesResolve(s) && HandlesResolve(t) && SameOpenFiles(s, t)
    ensures OpenFiles(t) == OpenFiles(s)
  {
  }

  lemma RelocationMovesTree(s: Ns, t: Ns, source: string, target: VPath, now: nat)
    requires Relocation(s, t, source, target, now)
    ensures TreeMoved(TreeOf(s.dirs, s.files), TreeOf(t.dirs, t.files), source, target.key)
  {
    hide Relocation, FileImage, FileImages, DirImage, PathsOf;
    RelocationDirs(s, t, source, target, now);
    ViewSize(s, t, source, target, now);
    RelocatedKeys(s, t, source, target, now);
    forall k <- View(s)
      ensures FileImage(k, source, target.key) in View(t) && View(t)[FileImage(k, source, target.key)] == View(s)[k]
    {
      RelocatedPath(s, t, source, target, now, k);
    }
  }

  lemma RelocatedKeys(s: Ns, t: Ns, source: string, target: VPath, now: nat)
    requires Relocation(s, t, source, target, now)
    ensures View(t).Keys == FileImages(View(s).Keys, source, target.key)
  {
    hide Relocation, FileImage, PathsOf;
    forall m <- View(t).Keys ensures m in FileImages(View(s).Keys, source, target.key) {
      var k := PathCameFrom(s, t, source, target, now, m);
    }
    forall m <- FileImages(View(s).Keys, source, target.key) ensures m in View(t).Keys {
      var k :| k in View(s).Keys && FileImage(k, source, target.key) == m;
      RelocatedPath(s, t, source, target, now, k);
    }
  }

  lemma RelocatedPath(s: Ns, t: Ns, source: string, target: VPath, now: nat, k: string)
    requires Relocation(s, t, source, target, now) && k in View(s)
    ensures FileImage(k, source, target.key) in View(t) && View(t)[FileImage(k, source, target.key)] == View(s)[k]
  {
    hide Relocation, FileImage;
    RelocatedEntry(s, t, source, target, now, k);
  }

  lemma PathCameFrom(s: Ns, t: Ns, source: string, target: VPath, now: nat, m: string) returns (k: string)
    requires Relocation(s, t, source, target, now) && m in View(t)
    ensures k in View(s) && FileImage(k, source, target.key) == m
  {
    hide Relocation, FileImage;
    k := FileCameFrom(s, t, source, target, now, m);
    RelocatedEntry(s, t, source, target, now, k);
  }

  lemma RelocationDirs(s: Ns, t: Ns, source: string, target: VPath, now: nat)
    requires Relocation(s, t, source, target, now)
    ensures t.dirs.Keys == (set k | k in s.dirs.Keys :: DirImage(k, source, target.key))
  {
  }

  lemma RenameDirectoryRefines(s: Ns, source: VPath, target: VPath, replace: bool, now: nat, pd: Persist, p: Persist)
    requires Inv(s) && IsDirectory(s, source.key)
    ensures var (t, r) := RenameDirectory(s, source.key, target, replace, now, pd, p);
            Step(DeskOf(s), RenameCall(source, target, replace, now, pd, p), r.Ok?, DeskOf(t))
  {
    hide Inv, Delete, MoveTree, Persisted, DeskOf, HasParent, Movable;
    var e := RenameCall(source, target, replace, now, pd, p);
    UnchangedStep(s, e);
    DeskParts(s);
    if source.key == "" || IsUnder(target.key, source.key) || !HasParent(s.dirs, target.key) { return; }
    if target.key in s.files || target.key in s.dirs {
      if replace {
        DeleteRefines(s, target.key, pd);
        TargetIsMovable(s, source.key, target, pd);
        var (u, r) := Delete(s, target.key, pd);
        ClearedStep(s, u, r.Ok?, source, target, now, pd, p);
        if r.Ok? {
          DeskParts(u);
          ClearedTree(s, u, target.key, pd);
          MoveTreePersisted(s, u, source, target, replace, now, pd, p);
        }
      }
    } else {
      FreeTargetIsMovable(s, source.key, target.key);
      FreeTree(s, target.key);
      MoveTreePersisted(s, s, source, target, replace, now, pd, p);
    }
  }

  lemma ClearedTree(s: Ns, u: Ns, key: string, pd: Persist)
    requires Step(DeskOf(s), DeleteCall(key, pd), true, DeskOf(u))
    ensures DeskOf(u).tree == Without(DeskOf(s).tree, key) && DeskOf(u).open == DeskOf(s).open
    ensures DeskOf(u).saved == DeskOf(s).saved || DeskOf(u).saved == DeskOf(u).tree
  {
    hide DeskOf, Without, Passes, CounterStep;
  }

  lemma FreeTree(s: Ns, key: string)
    requires key !in s.files && key !in s.dirs
    ensures Without(DeskOf(s).tree, key) == DeskOf(s).tree
  {
  }

  lemma MoveTreePersisted(s: Ns, u: Ns, source: VPath, target: VPath, replace: bool, now: nat, pd: Persist, p: Persist)
    requires Inv(u) && Movable(u, source.key, target.key) && IsDirectory(s, source.key)
    requires DeskOf(u).tree == Without(DeskOf(s).tree, target.key) && DeskOf(u).open == DeskOf(s).open
    requires u.nextFile == s.nextFile && (replace || DeskOf(u).tree == DeskOf(s).tree)
    requires DeskOf(u).saved == DeskOf(s).saved || (replace && DeskOf(u).saved == DeskOf(u).tree)
    ensures var (t, r) := Persisted(u, MoveTree(u, source.key, target, now), p);
            Step(DeskOf(s), RenameCall(source, target, replace, now, pd, p), r.Ok?, DeskOf(t))
  {
    hide Inv, Movable, MoveTree, OpenFiles, PathsOf, TreeMoved, Without;
    MoveTreeDesk(u, source.key, target, now);
    PersistedDesk(u, MoveTree(u, source.key, target, now), p);
  }

  lemma RenameRefines(s: Ns, source: VPath, target: VPath, replace: bool, now: nat, pd: Persist, p: Persist)
    requires Inv(s)
    ensures var (t, r) := Rename(s, source, target, replace, now, pd, p);
            Step(DeskOf(s), RenameCall(source, target, replace, now, pd, p), r.Ok?, DeskOf(t))
  {
    hide Inv, RenameDirectory, DeskOf, ClearTarget, MoveFile, Persisted;
    UnchangedStep(s, RenameCall(source, target, replace, now, pd, p));
    if HasParent(s.dirs, target.key) {
      if IsDirectory(s, source.key) {
        RenameDirectoryRefines(s, source, target, replace, now, pd, p);
      } else if source.key in s.files && !s.files[source.key].deletePending {
        RenameFileRefines(s, source, target, replace, now, pd, p);
      }
    }
  }

  /** No step moves an open handle to another file. */
  lemma StepKeepsOpen(a: Desk, e: Event, ok: bool, b: Desk, h: nat)
    requires Step(a, e, ok, b) && h in a.open && h in b.open
    ensures b.open[h] == a.open[h]
  {
    hide TreeStep, CounterStep;
  }

  lemma UseRefines(s: Ns, e: Event)
    requires e.UseHandleCall? || e.ReadPathCall? || e.FlushHandleCall?
    ensures Step(DeskOf(s), e, Succeeded(s, e), DeskOf(Next(s, e)))
  {
    hide Stamp, PathsOf, OpenFiles;
    match e
    case UseHandleCall(h, wrote, done, now) =>
      if HandleKey(s, h).Ok? { StampDesk(s, HandleKey(s, h).value, !wrote, wrote, now); }
    case ReadPathCall(key, done, now) => StampDesk(s, key, true, false, now);
    case FlushHandleCall(h, staged, done, now, p) =>
      if HandleKey(s, h).Ok? {
        var key := HandleKey(s, h).value;
        StampDesk(s, key, false, true, now);
        var t := if staged then Stamp(s, key, false, true, now) else s;
        PersistedDesk(t, t, p);
      }
  }

  /** Every namespace operation is a step of the desk, however its index writes end. */
  lemma StepRefines(s: Ns, e: Event)
    requires Inv(s)
    ensures Step(DeskOf(s), e, Succeeded(s, e), DeskOf(Next(s, e)))
  {
    hide Inv, Step, Rename, Delete, CloseHandle, CreateOrOpen, CreateDirectory, UseHandle, FlushHandle, ReadPath,
        DeskOf;
    match e
    case CreateDirectoryCall(path, now, p) => CreateDirectoryRefines(s, path, now, p);
    case CreateOrOpenCall(path, create, allowDelete, now, p) => OpenRefines(s, path, create, allowDelete, now, p);
    case CloseHandleCall(h, p) => CloseRefines(s, h, p);
    case RenameCall(source, target, replace, now, pd, p) => RenameRefines(s, source, target, replace, now, pd, p);
    case DeleteCall(key, p) => DeleteRefines(s, key, p);
    case Reopen => ReopenRefines(s);
    case _ => UseRefines(s, e);
  }

  lemma ReopenRefines(s: Ns)
    ensures Step(DeskOf(s), Reopen, true, DeskOf(Reopened(s)))
  {
    assert OpenFiles(Reopened(s)) == map[];
  }

  /** Refinement over runs: from the empty namespace, each call of any run is a step of the desk. */
  lemma RunsRefineDesk(events: seq<Event>, i: nat)
    requires i < |events|
    ensures var s := After(EMPTY, events[..i]);
            Step(DeskOf(s), events[i], Succeeded(s, events[i]), DeskOf(After(EMPTY, events[..i + 1])))
  {
    hide Step, DeskOf, Next, Succeeded;
    RunsAreSafe(events[..i]);
    StepRefines(After(EMPTY, events[..i]), events[i]);
    assert events[..i + 1][..i] == events[..i];
  }

  // ----- ids on the desk -----

  ghost predicate Issued(id: string, nextFile: nat) {
    exists n: nat :: n < nextFile && id == FileIdOf(n)
  }

  ghost predicate AllIssued(t: Tree, nextFile: nat) {
    forall k <- t.paths :: Issued(t.paths[k], nextFile)
  }

  /** Every id that a path, a saved path or a handle leads to came from the counter. */
  ghost predicate DeskInv(a: Desk) {
    && AllIssued(a.tree, a.nextFile)
    && AllIssued(a.saved, a.nextFile)
    && forall h <- a.open :: Issued(a.open[h], a.nextFile)
  }

  lemma PassesIssued(t: Tree, e: Event, nextFile: nat, u: Tree, n: nat)
    requires AllIssued(t, nextFile) && Passes(t, e, nextFile, u) && nextFile <= n
    requires e.CreateOrOpenCall? && e.path.key !in t.paths && u != t ==> nextFile < n
    ensures AllIssued(u, n)
  {
    hide Issued, TreeMoved;
    IssuedGrows(nextFile, n);
    if e.CreateOrOpenCall? && nextFile < n { NewIsIssued(nextFile, n); }
    if e.RenameCall? && IsDir(t, e.source.key) && Reaches(t, e, nextFile, u) {
      MovedIssued(if e.replace then Without(t, e.target.key) else t, u, e.source.key, e.target.key, n);
    }
  }

  lemma MovedIssued(t: Tree, u: Tree, source: string, target: string, n: nat)
    requires TreeMoved(t, u, source, target) && AllIssued(t, n)
    ensures AllIssued(u, n)
  {
    hide Issued, FileImage;
    forall m <- u.paths ensures Issued(u.paths[m], n) {
      var k :| k in t.paths.Keys && FileImage(k, source, target) == m;
    }
  }

  lemma IssuedGrows(a: nat, b: nat)
    requires a <= b
    ensures forall id :: Issued(id, a) ==> Issued(id, b)
  {
  }

  lemma NewIsIssued(a: nat, b: nat)
    requires a < b
    ensures Issued(FileIdOf(a), b)
  {
  }

  lemma StepKeepsIssued(a: Desk, e: Event, ok: bool, b: Desk)
    requires DeskInv(a) && Step(a, e, ok, b)
    ensures DeskInv(b)
  {
    hide Issued, Reaches, TreeMoved, Without;
    IssuedGrows(a.nextFile, b.nextFile);
    TreesIssued(a, e, ok, b);
  }

  lemma TreesIssued(a: Desk, e: Event, ok: bool, b: Desk)
    requires DeskInv(a) && Step(a, e, ok, b)
    ensures AllIssued(b.tree, b.nextFile) && AllIssued(b.saved, b.nextFile)
  {
    hide Issued, TreeMoved, Without, OpenStep;
    IssuedGrows(a.nextFile, b.nextFile);
    if !e.Reopen? {
      if b.tree != a.tree { PassesIssued(a.tree, e, a.nextFile, b.tree, b.nextFile); }
      if b.saved != a.saved { PassesIssued(a.tree, e, a.nextFile, b.saved, b.nextFile); }
    }
  }
}
