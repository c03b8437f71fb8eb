/** What callers can observe of the namespace: a map from paths to file ids, a set of directories, and open files. */
module FileView {
  import opened Wire
  import opened StorageFormat
  import opened Namespace
  import opened NamespaceSafety
  import opened Renames

  /** The unmarked files of a file map, by key. */
  function PathsOf(files: Files): map<string, string> {
    map k | k in files && !files[k].deletePending :: files[k].fileId
  }

  /** The files that can be found by path. */
  function View(s: Ns): map<string, string> {
    PathsOf(s.files)
  }

  /** The file an open handle works on. */
  function FileOfHandle(s: Ns, h: nat): Result<string, StorageError> {
    match HandleKey(s, h) case Err(e) => Err(e) case Ok(key) => Ok(s.files[key].fileId)
  }

  /** Reading by path finds exactly the files in the view. */
  lemma PathReadsSeeView(s: Ns, key: string, now: nat)
    ensures ReadPath(s, key, true, now).1 == if key in View(s) then Ok(View(s)[key]) else Err(NotFound)
    ensures View(ReadPath(s, key, true, now).0) == View(s)
  {
  }

  /** Opening an existing file changes no view; creating one adds a single new entry; failing changes nothing. */
  lemma OpenAddsAtMostOne(s: Ns, path: VPath, create: bool, allowDelete: bool, now: nat, p: Persist)
    requires Inv(s)
    ensures var (t, r) := CreateOrOpen(s, path, create, allowDelete, now, p);
            && (r.Err? ==> View(t) == View(s) && t.handles == s.handles)
            && (r.Ok? ==>
                 && View(t) == (if path.key in s.files then View(s) else View(s)[path.key := FileIdOf(s.nextFile)])
                 && r.value !in s.handles
                 && FileOfHandle(t, r.value) == Ok(View(t)[path.key])
                 && forall h <- s.handles :: FileOfHandle(t, h) == FileOfHandle(s, h))
            && (r.Ok? <==> path.key in View(s)
                           || (path.key !in s.files && create && HasParent(s.dirs, path.key) && p == Written))
  {
    hide Inv, Stamp, NewFile, HasParent, Visible;
    if path.key in s.files {
      StampKeepsView(s, path.key, true, false, now);
      NewHandleView(s, Stamp(s, path.key, true, false, now), path.key, allowDelete);
    } else if create && HasParent(s.dirs, path.key) {
      NewFileView(s, path, now);
      var m := NewFile(s, path, now);
      NewHandleView(s, m.(index := IndexOf(m)), path.key, allowDelete);
    }
  }

  lemma StampKeepsView(s: Ns, key: string, read: bool, wrote: bool, now: nat)
    ensures var t := Stamp(s, key, read, wrote, now);
            && View(t) == View(s) && t.files.Keys == s.files.Keys && t.handles == s.handles
                && t.nextHandle == s.nextHandle
            && forall k <- s.files :: t.files[k].fileId == s.files[k].fileId
  {
  }

  lemma NewFileView(s: Ns, path: VPath, now: nat)
    requires path.key !in s.files
    ensures var t := NewFile(s, path, now);
            && View(t) == View(s)[path.key := FileIdOf(s.nextFile)] && t.files.Keys == s.files.Keys + {path.key}
            && t.handles == s.handles && t.nextHandle == s.nextHandle
            && forall k <- s.files :: t.files[k].fileId == s.files[k].fileId
  {
  }

  /** One more handle, on a file of the view; the others stay where they are. */
  lemma NewHandleView(s: Ns, m: Ns, key: string, allowDelete: bool)
    requires Inv(s) && m.handles == s.handles && m.nextHandle == s.nextHandle && s.files.Keys <= m.files.Keys
    requires forall k <- s.files :: m.files[k].fileId == s.files[k].fileId
    ensures var (t, r) := NewHandle(m, key, allowDelete);
            && View(t) == View(m) && r.Ok? && r.value !in s.handles
            && (key in View(m) ==> FileOfHandle(t, r.value) == Ok(View(m)[key]))
            && forall h <- s.handles :: FileOfHandle(t, h) == FileOfHandle(s, h)
  {
    hide Consistent;
    var t := NewHandle(m, key, allowDelete).0;
    forall h <- s.handles ensures FileOfHandle(t, h) == FileOfHandle(s, h) { assert s.handles[h].key in s.files; }
  }

  /** Closing a handle changes neither the view nor any other handle. */
  lemma CloseKeepsView(s: Ns, h: nat, p: Persist)
    requires Inv(s)
    ensures var (t, r) := CloseHandle(s, h, p);
            && View(t) == View(s) && t.handles == s.handles - {h}
            && (h !in s.handles ==> r == Err(NotFound))
            && forall g <- t.handles :: FileOfHandle(t, g) == FileOfHandle(s, g)
  {
    hide Consistent;
    var t := CloseHandle(s, h, p).0;
    forall g <- t.handles ensures FileOfHandle(t, g) == FileOfHandle(s, g) { assert s.handles[g].key in s.files; }
  }

  /** A successful file deletion removes one entry from the view and leaves open handles on their files. */
  lemma DeleteRemovesOne(s: Ns, key: string, p: Persist)
    requires Inv(s) && !IsDirectory(s, key)
    ensures var (t, r) := Delete(s, key, p);
            && (r.Ok? ==> View(t) == View(s) - {key})
            && (r.Err? ==> View(t) == View(s))
            && (r.Ok? <==> key in s.files && !IsPinned(s, key) && (IsOpen(s, key) || p == Written))
            && t.dirs == s.dirs && t.handles == s.handles
            && forall h <- s.handles :: FileOfHandle(t, h) == FileOfHandle(s, h)
  {
    hide Consistent;
  }

  /** A directory can be deleted exactly when it exists and is empty; nothing else changes. */
  lemma DeleteDirectoryRemovesOne(s: Ns, key: string, p: Persist)
    requires IsDirectory(s, key)
    ensures var (t, r) := Delete(s, key, p);
            && (r.Ok? <==> key != "" && !HasChildren(s, key) && p == Written)
            && t.dirs == (if r.Ok? then s.dirs - {key} else s.dirs)
            && t.files == s.files && t.handles == s.handles
  {
  }

  lemma CreateDirectoryAddsOne(s: Ns, path: VPath, now: nat, p: Persist)
    ensures var (t, r) := CreateDirectory(s, path, now, p);
            && (r.Ok? <==> path.key !in s.files && path.key !in s.dirs && HasParent(s.dirs, path.key) && p == Written)
            && (r.Ok? ==>
                  && t.dirs.Keys == s.dirs.Keys + {path.key}
                  && (path.key != "" ==> EntryMetadata(t, path.key, now) == Ok(AllTimes(now))))
            && (r.Err? ==> t.dirs == s.dirs)
            && t.files == s.files && t.handles == s.handles
  {
  }

  lemma ViewAfterMove(u: Ns, source: string, target: VPath, now: nat)
    requires source in View(u)
    ensures View(MoveFile(u, source, target, now)) == (View(u) - {source})[target.key := View(u)[source]]
  {
  }

  /** Clearing the way takes the old file out of the view unless it is pinned or the index write fails; it succeeds
      exactly when nobody holds the old file open. */
  lemma ViewAfterClearing(s: Ns, key: string, pd: Persist)
    requires Inv(s) && key in s.files && !IsDirectory(s, key)
    ensures var (u, r) := ClearTarget(s, key, true, pd);
            var deleted := !IsPinned(s, key) && (IsOpen(s, key) || pd == Written);
            && u.dirs == s.dirs && (r.Ok? <==> !IsOpen(s, key) && pd == Written)
            && View(u) == (if deleted then View(s) - {key} else View(s))
            && (IsOpen(s, key) ==> r == Err(SharingViolation))
            && forall k <- s.files :: k != key ==> k in u.files
  {
    hide Consistent;
    if IsPinned(s, key) {
      var h :| h in s.handles && s.handles[h].key == key && !s.handles[h].allowDelete;
      assert IsOpen(s, key);
    }
  }

  /**
   * A file rename without replacement moves one entry of the view, exactly when the target is free; failing, it changes
   * nothing.
   */
  lemma RenameMovesOne(s: Ns, source: VPath, target: VPath, now: nat, pd: Persist, p: Persist)
    requires Inv(s) && !IsDirectory(s, source.key)
    ensures var (t, r) := Rename(s, source, target, false, now, pd, p);
            && (r.Ok? <==>
                  source.key in View(s) && target.key !in s.files && HasParent(s.dirs, target.key) && p == Written)
            && View(t) == (if r.Ok? then (View(s) - {source.key})[target.key := View(s)[source.key]] else View(s))
            && t.dirs == s.dirs && t.handles.Keys == s.handles.Keys
            && forall h <- s.handles :: FileOfHandle(t, h) == FileOfHandle(s, h)
  {
    hide Consistent, RenameDirectory, Delete, IndexOf, HasParent;
    var (t, r) := Rename(s, source, target, false, now, pd, p);
    if r.Ok? {
      ViewAfterMove(s, source.key, target, now);
      forall h <- s.handles ensures FileOfHandle(t, h) == FileOfHandle(s, h) { assert s.handles[h].key in s.files; }
    }
  }

  /**
   * A replacing rename onto another file drops that file and moves the source in its place. It succeeds exactly
   * when the target is closed and both index writes go through; a target that could be deleted is gone even if not.
   */
  lemma RenameReplacesOne(s: Ns, source: VPath, target: VPath, now: nat, pd: Persist, p: Persist)
    requires Inv(s) && !IsDirectory(s, source.key) && !IsDirectory(s, target.key)
    requires source.key in View(s) && target.key in s.files && target.key != source.key
    requires HasParent(s.dirs, target.key)
    ensures var (t, r) := Rename(s, source, target, true, now, pd, p);
            var deleted := !IsPinned(s, target.key) && (IsOpen(s, target.key) || pd == Written);
            && (r.Ok? <==> !IsOpen(s, target.key) && pd == Written && p == Written)
            && (r.Ok? ==> View(t) == (View(s) - {source.key})[target.key := View(s)[source.key]])
            && (r.Err? ==> View(t) == if deleted then View(s) - {target.key} else View(s))
            && (IsOpen(s, target.key) ==> r == Err(SharingViolation))
  {
    hide Inv, Delete, IsOpen, IsPinned, IndexOf, Redirected, RenameDirectory, HasParent;
    var (t, r) := Rename(s, source, target, true, now, pd, p);
    ViewAfterClearing(s, target.key, pd);
    var (u, cleared) := ClearTarget(s, target.key, true, pd);
    if cleared.Ok? {
      assert t.files == if p == Written then MoveFile(u, source.key, target, now).files else u.files;
      ViewAfterMove(u, source.key, target, now);
    }
  }

  /** A directory rename moves the view's entries below the source and no others. */
  lemma DirectoryRenameMovesView(s: Ns, source: string, target: VPath, now: nat, pd: Persist, p: Persist, k: string)
    requires Inv(s) && k in View(s)
    requires RenameDirectory(s, source, target, false, now, pd, p).1.Ok?
    ensures var t := RenameDirectory(s, source, target, false, now, pd, p).0;
            var m := FileImage(k, source, target.key);
            m in View(t) && View(t)[m] == View(s)[k] && |View(t)| == |View(s)|
  {
    hide RenameDirectory, Inv, SameOpenFiles, Relocation;
    DirectoryRenameIsRelocation(s, source, target, now, pd, p);
    var t := RenameDirectory(s, source, target, false, now, pd, p).0;
    RelocatedEntry(s, t, source, target, now, k);
    ViewSize(s, t, source, target, now);
  }

  lemma ViewSize(s: Ns, t: Ns, source: string, target: VPath, now: nat)
    requires Relocation(s, t, source, target, now)
    ensures |View(t)| == |View(s)|
  {
    hide Relocation, FileImage;
    var image := map k | k in View(s) :: FileImage(k, source, target.key);
    forall k <- View(s) ensures image[k] in View(t) { RelocatedEntry(s, t, source, target, now, k); }
    forall m <- View(t) ensures exists k :: k in image.Keys && image[k] == m {
      var k := FileCameFrom(s, t, source, target, now, m);
      RelocatedEntry(s, t, source, target, now, k);
      assert k in image.Keys && image[k] == m;
    }
    assert View(t).Keys == (set k | k in image.Keys :: image[k]);
    forall a, b | a in image && b in image && image[a] == image[b] ensures a == b {
      RelocationInjective(s, t, source, target, now, a, b);
    }
    InjectiveSize(image, image.Keys);
    assert image.Keys == View(s).Keys;
  }

  lemma RelocationInjective(s: Ns, t: Ns, source: string, target: VPath, now: nat, a: string, b: string)
    requires Relocation(s, t, source, target, now) && a in s.files && b in s.files
    requires FileImage(a, source, target.key) == FileImage(b, source, target.key)
    ensures a == b
  {
  }

  lemma {:induction false} InjectiveSize(image: map<string, string>, keys: set<string>)
    requires keys <= image.Keys
    requires forall a, b :: a in image && b in image && image[a] == image[b] ==> a == b
    ensures |set k | k in keys :: image[k]| == |keys|
    decreases |keys|
  {
    if keys != {} {
      var k :| k in keys;
      var rest := keys - {k};
      InjectiveSize(image, rest);
      assert (set x | x in keys :: image[x]) == (set x | x in rest :: image[x]) + {image[k]};
      assert image[k] !in (set x | x in rest :: image[x]);
    }
  }
}
