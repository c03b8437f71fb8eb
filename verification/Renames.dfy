/** Renaming: a directory moves as one exact subtree, and what a replacing rename can lose. */
module Renames {
  import opened Wire
  import opened Keys
  import opened Namespace
  import opened NamespaceSafety

  function DirImage(k: string, source: string, target: string): string {
    if InTree(k, source) then Moved(k, source, target) else k
  }

  function FileImage(k: string, source: string, target: string): string {
    if IsUnder(k, source) then Moved(k, source, target) else k
  }

  /** `t` is `s` with the tree at `source` relocated to `target`, entry by entry, and nothing else touched. */
  ghost predicate Relocation(s: Ns, t: Ns, source: string, target: VPath, now: nat) {
    && t.dirs.Keys == (set k | k in s.dirs :: DirImage(k, source, target.key))
    && (forall a, b ::
          a in s.dirs && b in s.dirs && DirImage(a, source, target.key) == DirImage(b, source, target.key) ==> a == b)
    && (forall k <- s.dirs :: t.dirs[DirImage(k, source, target.key)] == DirAfter(k, s.dirs[k], source, target, now))
    && t.files.Keys == (set k | k in s.files :: FileImage(k, source, target.key))
    && (forall a, b ::
          a in s.files && b in s.files && FileImage(a, source, target.key) == FileImage(b, source, target.key) ==>
            a == b)
    && (forall k <- s.files :: t.files[FileImage(k, source, target.key)] == FileAfter(k, s.files[k], source, now))
  }

  /** Only the moved root changes its name, and only moved entries change their change time. */
  function DirAfter(k: string, e: DirEntry, source: string, target: VPath, now: nat): DirEntry {
    if !InTree(k, source) then e
    else DirEntry(if k == source then target.name else e.display, e.times.(change := now))
  }

  function FileAfter(k: string, e: FileEntry, source: string, now: nat): FileEntry {
    if !IsUnder(k, source) then e else e.(times := e.times.(change := now))
  }

  /** Every handle stays open on the same file. */
  ghost predicate SameOpenFiles(s: Ns, t: Ns)
    requires HandlesResolve(s) && HandlesResolve(t)
  {
    && t.handles.Keys == s.handles.Keys
    && forall h <- s.handles ::
      && t.handles[h].allowDelete == s.handles[h].allowDelete
      && t.files[t.handles[h].key].fileId == s.files[s.handles[h].key].fileId
  }

  lemma DirImageInjective(s: Ns, source: string, target: string, a: string, b: string)
    requires Movable(s, source, target)
    requires a in s.dirs && b in s.dirs && DirImage(a, source, target) == DirImage(b, source, target)
    ensures a == b
  {
    if InTree(a, source) && InTree(b, source) {
      MovedInjective(a, b, source, target);
    } else if InTree(a, source) {
      NotAtTarget(s, source, target, a, b);
    } else if InTree(b, source) {
      NotAtTarget(s, source, target, b, a);
    }
  }

  lemma FileImageInjective(s: Ns, source: string, target: string, a: string, b: string)
    requires Movable(s, source, target)
    requires a in s.files && b in s.files && FileImage(a, source, target) == FileImage(b, source, target)
    ensures a == b
  {
    if IsUnder(a, source) && IsUnder(b, source) {
      MovedInjective(a, b, source, target);
    } else if IsUnder(a, source) {
      NotAtTarget(s, source, target, a, b);
    } else if IsUnder(b, source) {
      NotAtTarget(s, source, target, b, a);
    }
  }

  /** No key already there is the image of a moved key: nothing is overwritten. */
  lemma NotAtTarget(s: Ns, source: string, target: string, moved: string, there: string)
    requires Movable(s, source, target)
    requires InTree(moved, source) && (there in s.dirs || (there in s.files && moved != source))
    ensures Moved(moved, source, target) != there
  {
    MovedBack(moved, source, target);
    NothingUnder(s.dirs, s.files, target, there);
  }

  lemma MoveDirsRelocates(s: Ns, source: string, target: VPath, now: nat, k: string)
    requires Movable(s, source, target.key) && k in s.dirs
    ensures var t := MoveTree(s, source, target, now);
            var m := DirImage(k, source, target.key);
            m in t.dirs && t.dirs[m] == DirAfter(k, s.dirs[k], source, target, now)
  {
    if InTree(k, source) {
      MovedBack(k, source, target.key);
      assert k in DirTree(s.dirs, source);
      if k != source { assert Moved(k, source, target.key) != target.key; }
    } else if k in Relocated(DirTree(s.dirs, source), source, target.key) {
      var was := Moved(k, target.key, source);
      MovedBack(k, target.key, source);
      NotAtTarget(s, source, target.key, was, k);
    }
  }

  lemma MoveFilesRelocates(s: Ns, source: string, target: VPath, now: nat, k: string)
    requires Movable(s, source, target.key) && k in s.files
    ensures var t := MoveTree(s, source, target, now);
            var m := FileImage(k, source, target.key);
            m in t.files && t.files[m] == FileAfter(k, s.files[k], source, now)
  {
    if IsUnder(k, source) {
      MovedBack(k, source, target.key);
      assert k in FileTree(s.files, source);
    } else if k in Relocated(FileTree(s.files, source), source, target.key) {
      var was := Moved(k, target.key, source);
      MovedBack(k, target.key, source);
      NotAtTarget(s, source, target.key, was, k);
    }
  }

  lemma MovedDirKeys(s: Ns, source: string, target: VPath, now: nat)
    requires Movable(s, source, target.key)
    ensures MovedDirs(s.dirs, source, target, now).Keys == (set k | k in s.dirs :: DirImage(k, source, target.key))
  {
    hide Movable, InTree, IsUnder, Moved, MovedDir;
    var all, tree := MovedDirs(s.dirs, source, target, now), DirTree(s.dirs, source);
    forall k <- s.dirs ensures DirImage(k, source, target.key) in all { MoveDirsRelocates(s, source, target, now, k); }
    forall m <- all ensures exists k :: k in s.dirs && DirImage(k, source, target.key) == m {
      if m in Relocated(tree, source, target.key) {
        MovedBack(m, target.key, source);
        assert DirImage(Moved(m, target.key, source), source, target.key) == m;
      } else {
        assert DirImage(m, source, target.key) == m;
      }
    }
  }

  lemma MovedFileKeys(s: Ns, source: string, target: VPath, now: nat)
    requires Movable(s, source, target.key)
    ensures MovedFiles(s.files, source, target.key, now).Keys
            == (set k | k in s.files :: FileImage(k, source, target.key))
  {
    hide Movable, IsUnder, Moved;
    var all, tree := MovedFiles(s.files, source, target.key, now), FileTree(s.files, source);
    forall k <- s.files ensures FileImage(k, source, target.key) in all {
      MoveFilesRelocates(s, source, target, now, k);
    }
    forall m <- all ensures exists k :: k in s.files && FileImage(k, source, target.key) == m {
      if m in Relocated(tree, source, target.key) {
        MovedBack(m, target.key, source);
        assert FileImage(Moved(m, target.key, source), source, target.key) == m;
      } else {
        assert FileImage(m, source, target.key) == m;
      }
    }
  }

  lemma MoveTreeRelocates(s: Ns, source: string, target: VPath, now: nat)
    requires Movable(s, source, target.key)
    ensures Relocation(s, MoveTree(s, source, target, now), source, target, now)
  {
    hide MovedDirs, MovedFiles, MovedHandles, Movable, DirImage, FileImage, DirAfter, FileAfter;
    MovedDirKeys(s, source, target, now);
    MovedFileKeys(s, source, target, now);
    var t := MoveTree(s, source, target, now);
    forall a, b | a in s.dirs && b in s.dirs && DirImage(a, source, target.key) == DirImage(b, source, target.key)
      ensures a == b
    {
      DirImageInjective(s, source, target.key, a, b);
    }
    forall k <- s.dirs ensures t.dirs[DirImage(k, source, target.key)] == DirAfter(k, s.dirs[k], source, target, now) {
      MoveDirsRelocates(s, source, target, now, k);
    }
    forall a, b |
      a in s.files && b in s.files && FileImage(a, source, target.key) == FileImage(b, source, target.key)
      ensures a == b
    {
      FileImageInjective(s, source, target.key, a, b);
    }
    forall k <- s.files ensures t.files[FileImage(k, source, target.key)] == FileAfter(k, s.files[k], source, now) {
      MoveFilesRelocates(s, source, target, now, k);
    }
  }

  lemma MoveTreeKeepsOpenFiles(s: Ns, source: string, target: VPath, now: nat)
    requires Movable(s, source, target.key)
    ensures HandlesResolve(MoveTree(s, source, target, now)) && SameOpenFiles(s, MoveTree(s, source, target, now))
  {
    MoveKeepsHandles(s, source, target, now);
    var t := MoveTree(s, source, target, now);
    forall h <- s.handles ensures t.files[t.handles[h].key].fileId == s.files[s.handles[h].key].fileId {
      MoveFilesRelocates(s, source, target, now, s.handles[h].key);
    }
  }

  /** When a directory rename that may not replace anything can go ahead. */
  predicate CanMove(s: Ns, source: string, target: string) {
    && source != "" && !IsUnder(target, source)
    && HasParent(s.dirs, target)
    && target !in s.files && target !in s.dirs
  }

  /**
   * A directory rename without replacement succeeds exactly when the target is free, has a parent and
   * lies outside the moved tree. It then relocates the tree exactly; otherwise all three maps are as before.
   */
  lemma DirectoryRenameIsRelocation(s: Ns, source: string, target: VPath, now: nat, pd: Persist, p: Persist)
    requires Inv(s)
    ensures var (t, r) := RenameDirectory(s, source, target, false, now, pd, p);
            && (r.Ok? <==> CanMove(s, source, target.key) && p == Written)
            && (r.Ok? ==>
                  && Relocation(s, t, source, target, now)
                  && HandlesResolve(t) && SameOpenFiles(s, t)
                  && t.index == IndexOf(t))
            && (r.Err? ==> t.dirs == s.dirs && t.files == s.files && t.handles == s.handles)
  {
    hide MoveTree, Relocation, SameOpenFiles, Consistent, Delete;
    if CanMove(s, source, target.key) {
      FreeTargetIsMovable(s, source, target.key);
      MoveTreeRelocates(s, source, target, now);
      MoveTreeKeepsOpenFiles(s, source, target, now);
      AfterWriting(s, MoveTree(s, source, target, now), source, target, now);
    }
  }

  lemma AfterWriting(s: Ns, m: Ns, source: string, target: VPath, now: nat)
    requires Relocation(s, m, source, target, now) && HandlesResolve(s) && HandlesResolve(m) && SameOpenFiles(s, m)
    ensures var t := m.(index := IndexOf(m));
            Relocation(s, t, source, target, now) && HandlesResolve(t) && SameOpenFiles(s, t) && t.index == IndexOf(t)
  {
  }

  /** Equal up to change times. */
  ghost predicate SameDirs(a: Dirs, b: Dirs) {
    a.Keys == b.Keys && forall k <- a ::
        a[k].display == b[k].display && a[k].times.(change := 0) == b[k].times.(change := 0)
  }

  ghost predicate SameFiles(a: Files, b: Files) {
    a.Keys == b.Keys && forall k <- a ::
        a[k].(times := b[k].times) == b[k] && a[k].times.(change := 0) == b[k].times.(change := 0)
  }

  lemma ImagesInvert(s: Ns, source: string, target: string, k: string)
    requires Movable(s, source, target) && source in s.dirs
    ensures k in s.dirs ==> DirImage(DirImage(k, source, target), target, source) == k
    ensures k in s.files ==> FileImage(FileImage(k, source, target), target, source) == k
  {
    if InTree(k, source) { MovedBack(k, source, target); }
    if k in s.dirs || k in s.files { NothingUnder(s.dirs, s.files, target, k); }
    NothingUnder(s.dirs, s.files, target, source);
  }

  lemma SourceIsFree(s: Ns, source: string, target: VPath, now: nat)
    requires Movable(s, source, target.key) && source in s.dirs && source !in s.files && target.key != ""
    ensures CanMove(MoveTree(s, source, target, now), target.key, source)
  {
    var t := MoveTree(s, source, target, now);
    NothingUnder(s.dirs, s.files, target.key, source);
    KeptParent(s, source, target, now, source);
  }

  lemma DirEntryBack(s: Ns, source: string, target: VPath, now: nat, later: nat, k: string)
    requires Movable(s, source, target.key) && source in s.dirs && k in s.dirs
    ensures var m := DirImage(k, source, target.key);
            var home := VPath(source, s.dirs[source].display);
            var e := DirAfter(m, DirAfter(k, s.dirs[k], source, target, now), target.key, home, later);
            DirImage(m, target.key, source) == k && e.display == s.dirs[k].display
                && e.times.(change := 0) == s.dirs[k].times.(change := 0)
  {
    ImagesInvert(s, source, target.key, k);
    if InTree(k, source) { MovedBack(k, source, target.key); }
    NothingUnder(s.dirs, s.files, target.key, k);
  }

  lemma RelocatedEntry(s: Ns, t: Ns, source: string, target: VPath, now: nat, k: string)
    requires Relocation(s, t, source, target, now)
    ensures k in s.dirs ==> var m := DirImage(k, source, target.key);
        m in t.dirs && t.dirs[m] == DirAfter(k, s.dirs[k], source, target, now)
    ensures k in s.files ==> var m := FileImage(k, source, target.key);
        m in t.files && t.files[m] == FileAfter(k, s.files[k], source, now)
  {
  }

  lemma DirCameFrom(s: Ns, t: Ns, source: string, target: VPath, now: nat, m: string) returns (k: string)
    requires Relocation(s, t, source, target, now) && m in t.dirs
    ensures k in s.dirs && DirImage(k, source, target.key) == m
  {
    k :| k in s.dirs && DirImage(k, source, target.key) == m;
  }

  lemma FileCameFrom(s: Ns, t: Ns, source: string, target: VPath, now: nat, m: string) returns (k: string)
    requires Relocation(s, t, source, target, now) && m in t.files
    ensures k in s.files && FileImage(k, source, target.key) == m
  {
    k :| k in s.files && FileImage(k, source, target.key) == m;
  }

  lemma SameDirsBack(s: Ns, t: Ns, b: Ns, source: string, target: VPath, now: nat, later: nat)
    requires Movable(s, source, target.key) && source in s.dirs
    requires Relocation(s, t, source, target, now)
    requires Relocation(t, b, target.key, VPath(source, s.dirs[source].display), later)
    ensures SameDirs(s.dirs, b.dirs)
  {
    hide Relocation, Movable, DirImage, DirAfter, FileImage, FileAfter;
    var home := VPath(source, s.dirs[source].display);
    forall k <- s.dirs
      ensures k in b.dirs && s.dirs[k].display == b.dirs[k].display
          && s.dirs[k].times.(change := 0) == b.dirs[k].times.(change := 0)
    {
      DirEntryBack(s, source, target, now, later, k);
      RelocatedEntry(s, t, source, target, now, k);
      RelocatedEntry(t, b, target.key, home, later, DirImage(k, source, target.key));
    }
    forall k <- b.dirs ensures k in s.dirs {
      var m := DirCameFrom(t, b, target.key, home, later, k);
      var j := DirCameFrom(s, t, source, target, now, m);
      ImagesInvert(s, source, target.key, j);
    }
  }

  lemma SameFilesBack(s: Ns, t: Ns, b: Ns, source: string, target: VPath, name: string, now: nat, later: nat)
    requires Movable(s, source, target.key) && source in s.dirs
    requires Relocation(s, t, source, target, now) && Relocation(t, b, target.key, VPath(source, name), later)
    ensures SameFiles(s.files, b.files)
  {
    hide Relocation, Movable, DirImage, DirAfter, FileImage;
    forall k <- s.files
      ensures k in b.files && s.files[k].(times := b.files[k].times) == b.files[k]
          && s.files[k].times.(change := 0) == b.files[k].times.(change := 0)
    {
      ImagesInvert(s, source, target.key, k);
      RelocatedEntry(s, t, source, target, now, k);
      RelocatedEntry(t, b, target.key, VPath(source, name), later, FileImage(k, source, target.key));
    }
    forall k <- b.files ensures k in s.files {
      var m := FileCameFrom(t, b, target.key, VPath(source, name), later, k);
      var j := FileCameFrom(s, t, source, target, now, m);
      ImagesInvert(s, source, target.key, j);
    }
  }

  lemma HandlesBack(s: Ns, source: string, target: VPath, now: nat)
    requires Movable(s, source, target.key) && source in s.dirs
    ensures MovedHandles(MovedHandles(s.handles, source, target.key), target.key, source) == s.handles
  {
    forall h <- s.handles
      ensures MovedHandles(MovedHandles(s.handles, source, target.key), target.key, source)[h] == s.handles[h] {
      ImagesInvert(s, source, target.key, s.handles[h].key);
    }
  }

  /** Renaming a directory and renaming it back restores every key, name, id and handle; only change times move on. */
  lemma RenameThereAndBack(s: Ns, source: string, target: VPath, now: nat, later: nat)
    requires Inv(s) && source in s.dirs && source !in s.files && target.key != "" && CanMove(s, source, target.key)
    ensures var t := RenameDirectory(s, source, target, false, now, Written, Written).0;
            var (b, r) := RenameDirectory(t, target.key, VPath(source, s.dirs[source].display), false, later,
                Written, Written);
            r.Ok? && SameDirs(s.dirs, b.dirs) && SameFiles(s.files, b.files) && b.handles == s.handles
  {
    hide Relocation, SameDirs, SameFiles, SameOpenFiles, MovedDirs, MovedFiles, MovedHandles;
    var t := RenameDirectory(s, source, target, false, now, Written, Written).0;
    var home := VPath(source, s.dirs[source].display);
    FreeTargetIsMovable(s, source, target.key);
    SourceIsFree(s, source, target, now);
    DirectoryRenameIsRelocation(s, source, target, now, Written, Written);
    RenameDirectoryKeeps(s, source, target, false, now, Written, Written);
    var b := RenameDirectory(t, target.key, home, false, later, Written, Written).0;
    DirectoryRenameIsRelocation(t, target.key, home, later, Written, Written);
    SameDirsBack(s, t, b, source, target, now, later);
    SameFilesBack(s, t, b, source, target, home.name, now, later);
    HandlesBack(s, source, target, now);
  }

  /** The file with this id can still be opened by some path. */
  ghost predicate Reachable(s: Ns, id: string) {
    exists k :: k in s.files && s.files[k].fileId == id && !s.files[k].deletePending
  }

  /**
   * A replacing file rename keeps the source file reachable unless the target has the very key of the source, no
   * handle forbids deletion, and the deletion goes through (by marking an open file, or by a written index).
   */
  lemma ReplacingRenameKeepsFile(s: Ns, source: VPath, target: VPath, now: nat, pd: Persist, p: Persist)
    requires Inv(s) && !IsDirectory(s, source.key) && source.key in s.files && !s.files[source.key].deletePending
    requires HasParent(s.dirs, target.key)
    ensures var (t, r) := Rename(s, source, target, true, now, pd, p);
            && (Reachable(t, s.files[source.key].fileId) <==>
                  || target.key != source.key
                  || IsPinned(s, source.key)
                  || (!IsOpen(s, source.key) && pd != Written))
            && (target.key == source.key ==> r.Err?)
  {
    hide Consistent;
    var id := s.files[source.key].fileId;
    var (t, r) := Rename(s, source, target, true, now, pd, p);
    var (u, d) := if target.key in s.files then ClearTarget(s, target.key, true, pd) else (s, Ok(()));
    if target.key != source.key {
      assert source.key in u.files && u.files[source.key] == s.files[source.key];
      if d.Ok? && p == Written {
        assert target.key in t.files && t.files[target.key].fileId == id;
      } else {
        assert source.key in t.files && t.files[source.key].fileId == id;
      }
    } else if IsPinned(s, source.key) || (!IsOpen(s, source.key) && pd != Written) {
      assert source.key in t.files && t.files[source.key].fileId == id;
    } else {
      OnlyOne(s, source.key);
    }
  }

  lemma OnlyOne(s: Ns, key: string)
    requires Inv(s) && key in s.files
    ensures forall k :: k in s.files && s.files[k].fileId == s.files[key].fileId ==> k == key
  {
  }

  /**
   * A directory rename loses its directory exactly when it replaces an empty directory by itself and the deletion
   * is written; whether the call then reports success depends on the second index write only.
   */
  lemma DirectoryRenameKeepsDirectory(s: Ns, source: string, target: VPath, replace: bool, now: nat, pd: Persist,
      p: Persist)
    requires Inv(s) && source != "" && source in s.dirs
    ensures var (t, r) := RenameDirectory(s, source, target, replace, now, pd, p);
            var lost := replace && target.key == source && !HasChildren(s, source) && pd == Written;
            && (source in t.dirs || target.key in t.dirs <==> !lost)
            && (lost ==> (r.Ok? <==> p == Written))
  {
    hide Inv, MoveTree, Visible, IsPinned, IsOpen;
    assert !IsUnder(source, source);
    DirectoryHasParent(s, source);
    var occupied := target.key in s.files || target.key in s.dirs;
    if IsUnder(target.key, source) || !HasParent(s.dirs, target.key) || (occupied && !replace) { return; }
    var (u, d) := if occupied then Delete(s, target.key, pd) else (s, Ok(()));
    if d.Ok? && source in u.dirs { SourceArrives(u, source, target, now); }
    if d.Ok? && source !in u.dirs { EmptyMove(u, source, target, now); }
  }

  lemma SourceArrives(u: Ns, source: string, target: VPath, now: nat)
    requires source in u.dirs
    ensures target.key in MoveTree(u, source, target, now).dirs
  {
    MovedBack(source, source, target.key);
    assert source in DirTree(u.dirs, source);
  }

  lemma DirectoryHasParent(s: Ns, key: string)
    requires Inv(s) && key in s.dirs
    ensures HasParent(s.dirs, key)
  {
  }

  lemma EmptyMove(u: Ns, source: string, target: VPath, now: nat)
    requires source !in u.dirs && !HasChildren(u, source)
    ensures MoveTree(u, source, target, now).dirs == u.dirs
  {
    assert DirTree(u.dirs, source) == {};
  }
}
