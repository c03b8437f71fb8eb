/** The namespace half of the local store: maps updated in place, with rollback by saved copies. */
module NamespaceStore {
  import opened Wire
  import opened StorageFormat
  import opened Keys
  import N = Namespace
  import opened NamespaceSafety
  import opened Renames

  /** `m` after the entries under the keys in `done` have moved to their images with their new values. */
  ghost predicate PartlyMoved<V>(m: map<string, V>, now: map<string, V>, done: set<string>, image: map<string,
      string>, value: map<string, V>)
    requires done <= m.Keys && done <= image.Keys && done <= value.Keys
  {
    && now.Keys == (m.Keys - done) + (set k | k in done :: image[k])
    && (forall k | k in m.Keys && k !in done :: now[k] == m[k])
    && (forall k <- done :: now[image[k]] == value[k])
  }

  /** Images of different keys differ, and none of them is taken. */
  ghost predicate FreeImages<V>(m: map<string, V>, image: map<string, string>) {
    && image.Keys <= m.Keys
    && (forall a, b :: a in image && b in image && image[a] == image[b] ==> a == b)
    && (forall k <- image :: image[k] !in m)
  }

  lemma OneMoreImage(done: set<string>, image: map<string, string>, k: string)
    requires done <= image.Keys && k in image
    ensures (set d | d in done + {k} :: image[d]) == (set d | d in done :: image[d]) + {image[k]}
  {
  }

  lemma MoveOne<V>(m: map<string, V>, now: map<string, V>, done: set<string>, image: map<string, string>,
      value: map<string, V>, k: string)
    requires image.Keys == value.Keys && FreeImages(m, image) && done <= image.Keys && k in image.Keys - done
    requires PartlyMoved(m, now, done, image, value)
    ensures k in now && now[k] == m[k]
    ensures PartlyMoved(m, (now - {k})[image[k] := value[k]], done + {k}, image, value)
  {
    var next := (now - {k})[image[k] := value[k]];
    OneMoreImage(done, image, k);
    assert next.Keys == (m.Keys - (done + {k})) + (set d | d in done + {k} :: image[d]);
    forall j | j in m.Keys && j !in done + {k} ensures next[j] == m[j] {}
    forall d <- done + {k} ensures next[image[d]] == value[d] {}
  }

  lemma NoneMoved<V>(m: map<string, V>, image: map<string, string>, value: map<string, V>)
    ensures PartlyMoved(m, m, {}, image, value)
  {
  }

  ghost function DirImages(s: N.Ns, source: string, target: string): map<string, string> {
    map k | k in N.DirTree(s.dirs, source) :: Moved(k, source, target)
  }

  ghost function DirValues(s: N.Ns, source: string, target: N.VPath, now: nat): map<string, N.DirEntry> {
    map k | k in N.DirTree(s.dirs, source) :: DirAfter(k, s.dirs[k], source, target, now)
  }

  ghost function FileImages(s: N.Ns, source: string, target: string): map<string, string> {
    map k | k in N.FileTree(s.files, source) :: Moved(k, source, target)
  }

  ghost function FileValues(s: N.Ns, source: string, now: nat): map<string, N.FileEntry> {
    map k | k in N.FileTree(s.files, source) :: FileAfter(k, s.files[k], source, now)
  }

  lemma DirImagesAreFree(s: N.Ns, source: string, target: string)
    requires Movable(s, source, target)
    ensures FreeImages(s.dirs, DirImages(s, source, target))
        && DirImages(s, source, target).Keys == N.DirTree(s.dirs, source) <= s.dirs.Keys
    ensures forall k <- DirImages(s, source, target) ::
        InTree(k, source) && DirImages(s, source, target)[k] == Moved(k, source, target)
  {
    var image := DirImages(s, source, target);
    forall a, b | a in image && b in image && image[a] == image[b]
      ensures a == b { MovedInjective(a, b, source, target); }
    forall k <- image ensures image[k] !in s.dirs {
      if image[k] in s.dirs { NotAtTarget(s, source, target, k, image[k]); }
    }
  }

  lemma FileImagesAreFree(s: N.Ns, source: string, target: string)
    requires Movable(s, source, target)
    ensures FreeImages(s.files, FileImages(s, source, target))
        && FileImages(s, source, target).Keys == N.FileTree(s.files, source) <= s.files.Keys
    ensures forall k <- FileImages(s, source, target) ::
        IsUnder(k, source) && FileImages(s, source, target)[k] == Moved(k, source, target)
  {
    var image := FileImages(s, source, target);
    forall a, b | a in image && b in image && image[a] == image[b]
      ensures a == b { MovedInjective(a, b, source, target); }
    forall k <- image ensures image[k] !in s.files {
      if image[k] in s.files { NotAtTarget(s, source, target, k, image[k]); }
    }
  }

  /** Where everything ends up does not depend on the order of the moves. */
  lemma MovedIsUnique<V>(m: map<string, V>, a: map<string, V>, b: map<string, V>, done: set<string>,
      image: map<string, string>, value: map<string, V>)
    requires done <= m.Keys && done <= image.Keys && done <= value.Keys
    requires PartlyMoved(m, a, done, image, value) && PartlyMoved(m, b, done, image, value)
    ensures a == b
  {
    forall k <- a ensures k in b && a[k] == b[k] {
      if k !in m || k in done {
        var d :| d in done && image[d] == k;
      }
    }
  }

  lemma MovedDirsMoves(s: N.Ns, source: string, target: N.VPath, now: nat)
    requires Movable(s, source, target.key)
    ensures PartlyMoved(s.dirs, N.MovedDirs(s.dirs, source, target, now), N.DirTree(s.dirs, source),
              DirImages(s, source, target.key), DirValues(s, source, target, now))
  {
    hide InTree, IsUnder, Moved, DirAfter, Movable, N.MovedDir;
    var tree, all := N.DirTree(s.dirs, source), N.MovedDirs(s.dirs, source, target, now);
    var image := DirImages(s, source, target.key);
    assert N.Relocated(tree, source, target.key) == (set k | k in tree :: image[k]);
    forall k | k in s.dirs && k !in tree ensures k in all && all[k] == s.dirs[k] { KeptDir(s, source, target, now, k); }
    forall k <- tree ensures image[k] in all && all[image[k]] == DirValues(s, source, target, now)[k] {
      MoveDirsRelocates(s, source, target, now, k);
    }
  }

  lemma KeptDir(s: N.Ns, source: string, target: N.VPath, now: nat, k: string)
    requires Movable(s, source, target.key) && k in s.dirs && !InTree(k, source)
    ensures var all := N.MovedDirs(s.dirs, source, target, now); k in all && all[k] == s.dirs[k]
  {
    MoveDirsRelocates(s, source, target, now, k);
  }

  lemma MovedFilesKeys(s: N.Ns, source: string, target: string, now: nat)
    ensures var tree := N.FileTree(s.files, source);
            N.MovedFiles(s.files, source, target, now).Keys
            == (s.files.Keys - tree) + (set k | k in tree :: FileImages(s, source, target)[k])
  {
    hide InTree, IsUnder, Moved;
    var tree := N.FileTree(s.files, source);
    forall k <- tree ensures InTree(k, source) { UnderIsInTree(k, source); }
    assert N.Relocated(tree, source, target) == (set k | k in tree :: FileImages(s, source, target)[k]);
  }

  lemma MovedFilesMoves(s: N.Ns, source: string, target: N.VPath, now: nat)
    requires Movable(s, source, target.key)
    ensures PartlyMoved(s.files, N.MovedFiles(s.files, source, target.key, now), N.FileTree(s.files, source),
              FileImages(s, source, target.key), FileValues(s, source, now))
  {
    hide InTree, IsUnder, Moved, FileAfter, Movable, N.MovedFiles;
    var tree, all := N.FileTree(s.files, source), N.MovedFiles(s.files, source, target.key, now);
    var image := FileImages(s, source, target.key);
    forall k <- tree ensures InTree(k, source) { UnderIsInTree(k, source); }
    MovedFilesKeys(s, source, target.key, now);
    forall k | k in s.files && k !in tree
      ensures k in all && all[k] == s.files[k] { KeptFile(s, source, target, now, k); }
    forall k <- tree ensures image[k] in all && all[image[k]] == FileValues(s, source, now)[k] {
      MoveFilesRelocates(s, source, target, now, k);
    }
  }

  lemma UnderIsInTree(k: string, source: string)
    ensures IsUnder(k, source) ==> InTree(k, source)
  {
  }

  lemma KeptFile(s: N.Ns, source: string, target: N.VPath, now: nat, k: string)
    requires Movable(s, source, target.key) && k in s.files && !IsUnder(k, source)
    ensures var all := N.MovedFiles(s.files, source, target.key, now); k in all && all[k] == s.files[k]
  {
    MoveFilesRelocates(s, source, target, now, k);
  }

  /** The directory map when the keys in `todo` are still to be moved. */
  ghost predicate DirsMoved(s: N.Ns, dirs: N.Dirs, todo: set<string>, source: string, target: N.VPath, now: nat) {
    var tree := N.DirTree(s.dirs, source);
    todo <= tree && PartlyMoved(s.dirs, dirs, tree - todo, DirImages(s, source, target.key),
        DirValues(s, source, target, now))
  }

  ghost predicate FilesMoved(s: N.Ns, files: N.Files, todo: set<string>, source: string, target: N.VPath, now: nat) {
    var tree := N.FileTree(s.files, source);
    todo <= tree && PartlyMoved(s.files, files, tree - todo, FileImages(s, source, target.key),
        FileValues(s, source, now))
  }

  lemma NoDirMoved(s: N.Ns, source: string, target: N.VPath, now: nat)
    ensures DirsMoved(s, s.dirs, N.DirTree(s.dirs, source), source, target, now)
  {
    hide PartlyMoved;
    var tree := N.DirTree(s.dirs, source);
    assert tree - tree == {};
    NoneMoved(s.dirs, DirImages(s, source, target.key), DirValues(s, source, target, now));
  }

  lemma NoFileMoved(s: N.Ns, source: string, target: N.VPath, now: nat)
    ensures FilesMoved(s, s.files, N.FileTree(s.files, source), source, target, now)
  {
    hide PartlyMoved;
    var tree := N.FileTree(s.files, source);
    assert tree - tree == {};
    NoneMoved(s.files, FileImages(s, source, target.key), FileValues(s, source, now));
  }

  lemma MoveOneDir(s: N.Ns, dirs: N.Dirs, todo: set<string>, source: string, target: N.VPath, now: nat, k: string)
    requires Movable(s, source, target.key) && DirsMoved(s, dirs, todo, source, target, now) && k in todo
    ensures InTree(k, source) && k in dirs
    ensures var entry := N.DirEntry(if k == source then target.name
        else dirs[k].display, dirs[k].times.(change := now));
            DirsMoved(s, (dirs - {k})[Moved(k, source, target.key) := entry], todo - {k}, source, target, now)
  {
    hide PartlyMoved, FreeImages, Movable, Moved, IsUnder;
    var tree := N.DirTree(s.dirs, source);
    DirImagesAreFree(s, source, target.key);
    MoveOne(s.dirs, dirs, tree - todo, DirImages(s, source, target.key), DirValues(s, source, target, now), k);
    assert tree - todo + {k} == tree - (todo - {k});
  }

  lemma MoveOneFile(s: N.Ns, files: N.Files, todo: set<string>, source: string, target: N.VPath, now: nat, k: string)
    requires Movable(s, source, target.key) && FilesMoved(s, files, todo, source, target, now) && k in todo
    ensures InTree(k, source) && k in files
    ensures var entry := files[k].(times := files[k].times.(change := now));
            FilesMoved(s, (files - {k})[Moved(k, source, target.key) := entry], todo - {k}, source, target, now)
  {
    hide PartlyMoved, FreeImages, Movable, Moved, IsUnder;
    var tree := N.FileTree(s.files, source);
    FileImagesAreFree(s, source, target.key);
    MoveOne(s.files, files, tree - todo, FileImages(s, source, target.key), FileValues(s, source, now), k);
    assert tree - todo + {k} == tree - (todo - {k});
  }

  lemma AllDirsMoved(s: N.Ns, dirs: N.Dirs, source: string, target: N.VPath, now: nat)
    requires Movable(s, source, target.key) && DirsMoved(s, dirs, {}, source, target, now)
    ensures dirs == N.MovedDirs(s.dirs, source, target, now)
  {
    hide PartlyMoved, Movable, N.MovedDirs;
    var tree, all := N.DirTree(s.dirs, source), N.MovedDirs(s.dirs, source, target, now);
    assert tree - {} == tree;
    MovedDirsMoves(s, source, target, now);
    MovedIsUnique(s.dirs, dirs, all, tree, DirImages(s, source, target.key), DirValues(s, source, target, now));
  }

  lemma AllFilesMoved(s: N.Ns, files: N.Files, source: string, target: N.VPath, now: nat)
    requires Movable(s, source, target.key) && FilesMoved(s, files, {}, source, target, now)
    ensures files == N.MovedFiles(s.files, source, target.key, now)
  {
    hide PartlyMoved, Movable, N.MovedFiles;
    var tree, all := N.FileTree(s.files, source), N.MovedFiles(s.files, source, target.key, now);
    assert tree - {} == tree;
    MovedFilesMoves(s, source, target, now);
    MovedIsUnique(s.files, files, all, tree, FileImages(s, source, target.key), FileValues(s, source, now));
  }

  class EncryptedNamespace {
    var dirs: N.Dirs
    var files: N.Files
    var handles: N.Handles
    var nextFile: nat
    var nextHandle: nat
    var index: N.Index

    function State(): N.Ns
      reads this
    {
      N.Ns(dirs, files, handles, nextFile, nextHandle, index)
    }

    constructor ()
      ensures State() == N.EMPTY && Inv(State())
    {
      dirs, files, handles := map[], map[], map[];
      nextFile, nextHandle, index := 1, 1, N.Index(map[], map[]);
    }

    method PersistNamespace(p: N.Persist) returns (r: Result<(), StorageError>)
      modifies this`index
      ensures index == if p == N.Refused then old(index) else N.IndexOf(old(State()))
      ensures r == if p == N.Written then Ok(()) else Err(IoFailure)
    {
      if p != N.Refused { index := N.IndexOf(State()); }
      r := if p == N.Written then Ok(()) else Err(IoFailure);
    }

    method CreateDirectory(path: N.VPath, now: nat, p: N.Persist) returns (r: Result<(), StorageError>)
      modifies this
      ensures (State(), r) == N.CreateDirectory(old(State()), path, now, p)
    {
      if path.key in files || path.key in dirs { return Err(AlreadyExists); }
      if !N.HasParent(dirs, path.key) { return Err(NotFound); }
      dirs := dirs[path.key := N.DirEntry(path.name, N.AllTimes(now))];
      r := PersistNamespace(p);
      if r.Err? {
        dirs := dirs - {path.key};
        assert dirs == old(dirs);
      }
    }

    method CreateOrOpen(path: N.VPath, create: bool, allowDelete: bool, now: nat, p: N.Persist)
      returns (r: Result<nat, StorageError>)
      modifies this
      ensures (State(), r) == N.CreateOrOpen(old(State()), path, create, allowDelete, now, p)
    {
      if path.key in files {
        var e := files[path.key];
        if e.deletePending { return Err(StorageError.DeletePending); }
        files := files[path.key := e.(times := e.times.(access := now))];
      } else {
        if !create || !N.HasParent(dirs, path.key) { return Err(NotFound); }
        files := files[path.key := N.FileEntry(N.FileIdOf(nextFile), path.name, false, N.AllTimes(now))];
        nextFile := nextFile + 1;
        var saved := PersistNamespace(p);
        if saved.Err? {
          files := files - {path.key};
          assert files == old(files);
          return Err(saved.error);
        }
      }
      handles := handles[nextHandle := N.Handle(path.key, allowDelete)];
      r := Ok(nextHandle);
      nextHandle := nextHandle + 1;
    }

    /** Set the times a read or a write touches. */
    method StampEntry(key: string, read: bool, wrote: bool, now: nat)
      modifies this`files
      ensures State() == N.Stamp(old(State()), key, read, wrote, now)
    {
      if key in files {
        var e := files[key];
        var t := e.times;
        if read { t := t.(access := now); }
        if wrote { t := t.(write := now, change := now); }
        files := files[key := e.(times := t)];
      }
    }

    method CloseHandle(h: nat, p: N.Persist) returns (r: Result<(), StorageError>)
      modifies this
      ensures (State(), r) == N.CloseHandle(old(State()), h, p)
    {
      if h !in handles { return Err(NotFound); }
      var key := handles[h].key;
      handles := handles - {h};
      if key in files && files[key].deletePending && !N.IsOpen(State(), key) {
        var prior := files;
        files := files - {key};
        r := PersistNamespace(p);
        if r.Err? { files := prior; }
      } else {
        r := Ok(());
      }
    }

    method DeleteDirectory(key: string, p: N.Persist) returns (r: Result<(), StorageError>)
      modifies this
      ensures (State(), r) == N.DeleteDirectory(old(State()), key, p)
    {
      if key == "" { return Err(SharingViolation); }
      if key !in dirs { return Err(NotFound); }
      if N.HasChildren(State(), key) { return Err(SharingViolation); }
      var prior := dirs;
      dirs := dirs - {key};
      r := PersistNamespace(p);
      if r.Err? { dirs := prior; }
    }

    method Delete(key: string, p: N.Persist) returns (r: Result<(), StorageError>)
      modifies this
      ensures (State(), r) == N.Delete(old(State()), key, p)
    {
      if N.IsDirectory(State(), key) {
        r := DeleteDirectory(key, p);
        return;
      }
      if key !in files { return Err(NotFound); }
      if N.IsPinned(State(), key) { return Err(SharingViolation); }
      if N.IsOpen(State(), key) {
        files := files[key := files[key].(deletePending := true)];
        return Ok(());
      }
      var prior := files;
      files := files - {key};
      r := PersistNamespace(p);
      if r.Err? { files := prior; }
    }

    /** Point every handle on the renamed file to its new key. */
    method RedirectHandles(source: string, target: string)
      modifies this`handles
      ensures handles == N.Redirected(old(handles), source, target)
    {
      var todo := handles.Keys;
      while todo != {}
        invariant todo <= handles.Keys == old(handles).Keys
        invariant forall h <- handles ::
          handles[h] == if h in todo then old(handles)[h] else N.Redirected(old(handles), source, target)[h]
        decreases |todo|
      {
        var h :| h in todo;
        if handles[h].key == source { handles := handles[h := handles[h].(key := target)]; }
        todo := todo - {h};
      }
    }

    method Rename(source: N.VPath, target: N.VPath, replace: bool, now: nat, pd: N.Persist, p: N.Persist)
      returns (r: Result<(), StorageError>)
      requires Inv(State())
      modifies this
      ensures (State(), r) == N.Rename(old(State()), source, target, replace, now, pd, p)
    {
      hide Inv, N.RenameDirectory, N.Delete, N.Redirected, N.IndexOf, N.HasParent, N.IsDirectory;
      if !N.HasParent(dirs, target.key) { return Err(NotFound); }
      if N.IsDirectory(State(), source.key) {
        r := RenameDirectory(source.key, target, replace, now, pd, p);
        return;
      }
      if source.key !in files { return Err(NotFound); }
      if files[source.key].deletePending { return Err(StorageError.DeletePending); }
      if target.key in files {
        if !replace { return Err(AlreadyExists); }
        r := Delete(target.key, pd);
        if r.Err? { return; }
        if target.key in files { return Err(SharingViolation); }
      }
      var priorFiles, priorHandles := files, handles;
      if source.key !in files { return Err(NotFound); }
      var moved := files[source.key];
      files := files - {source.key};
      files := files[target.key := moved.(display := target.name, times := moved.times.(change := now))];
      RedirectHandles(source.key, target.key);
      r := PersistNamespace(p);
      if r.Err? { files, handles := priorFiles, priorHandles; }
    }

    method MoveDirectories(source: string, target: N.VPath, now: nat)
      requires Movable(State(), source, target.key)
      modifies this`dirs
      ensures dirs == N.MovedDirs(old(dirs), source, target, now)
    {
      hide Movable, N.MovedDirs, DirsMoved, N.DirTree, InTree, IsUnder, Moved;
      ghost var s := State();
      var todo := N.DirTree(dirs, source);
      NoDirMoved(s, source, target, now);
      while todo != {}
        invariant DirsMoved(s, dirs, todo, source, target, now)
        decreases |todo|
      {
        var k :| k in todo;
        MoveOneDir(s, dirs, todo, source, target, now, k);
        var entry := dirs[k];
        dirs := dirs - {k};
        if k == source { entry := entry.(display := target.name); }
        entry := entry.(times := entry.times.(change := now));
        dirs := dirs[Moved(k, source, target.key) := entry];
        todo := todo - {k};
      }
      AllDirsMoved(s, dirs, source, target, now);
    }

    method MoveFilesUnder(source: string, target: N.VPath, now: nat, ghost s: N.Ns)
      requires Movable(s, source, target.key) && files == s.files
      modifies this`files
      ensures files == N.MovedFiles(old(files), source, target.key, now)
    {
      hide Movable, N.MovedFiles, FilesMoved, N.FileTree, InTree, IsUnder, Moved;
      var todo := N.FileTree(files, source);
      NoFileMoved(s, source, target, now);
      while todo != {}
        invariant FilesMoved(s, files, todo, source, target, now)
        decreases |todo|
      {
        var k :| k in todo;
        MoveOneFile(s, files, todo, source, target, now, k);
        var entry := files[k];
        files := files - {k};
        files := files[Moved(k, source, target.key) := entry.(times := entry.times.(change := now))];
        todo := todo - {k};
      }
      AllFilesMoved(s, files, source, target, now);
    }

    method MoveHandles(source: string, target: string)
      modifies this`handles
      ensures handles == N.MovedHandles(old(handles), source, target)
    {
      var todo := handles.Keys;
      while todo != {}
        invariant todo <= handles.Keys == old(handles).Keys
        invariant forall h <- handles ::
          handles[h] == if h in todo then old(handles)[h] else N.MovedHandles(old(handles), source, target)[h]
        decreases |todo|
      {
        var h :| h in todo;
        if IsUnder(handles[h].key, source) {
          handles := handles[h := handles[h].(key := Moved(handles[h].key, source, target))];
        }
        todo := todo - {h};
      }
    }

    method RenameDirectory(source: string, target: N.VPath, replace: bool, now: nat, pd: N.Persist, p: N.Persist)
      returns (r: Result<(), StorageError>)
      requires Inv(State())
      modifies this
      ensures (State(), r) == N.RenameDirectory(old(State()), source, target, replace, now, pd, p)
    {
      hide Inv, Movable, N.Delete, N.MovedDirs, N.MovedFiles, N.MovedHandles;
      if source == "" || IsUnder(target.key, source) { return Err(AlreadyExists); }
      if !N.HasParent(dirs, target.key) { return Err(NotFound); }
      if target.key in files || target.key in dirs {
        if !replace { return Err(AlreadyExists); }
        TargetIsMovable(State(), source, target, pd);
        r := Delete(target.key, pd);
        if r.Err? { return; }
      } else {
        FreeTargetIsMovable(State(), source, target.key);
      }
      var priorDirs, priorFiles, priorHandles := dirs, files, handles;
      ghost var u := State();
      assert Movable(u, source, target.key);
      MoveDirectories(source, target, now);
      MoveFilesUnder(source, target, now, u);
      MoveHandles(source, target.key);
      assert State() == N.MoveTree(u, source, target, now);
      r := PersistNamespace(p);
      if r.Err? { dirs, files, handles := priorDirs, priorFiles, priorHandles; }
    }
  }
}
