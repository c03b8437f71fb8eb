/** What every namespace operation keeps, whatever paths it is given and however its index write ends. */
module NamespaceSafety {
  import opened Wire
  import opened Keys
  import opened Namespace
  import Decimal

  /** The parent of every key is a directory key. */
  ghost predicate Closed(dirs: Dirs, files: Files) {
    && (forall k <- dirs :: HasParent(dirs, k))
    && (forall k <- files :: HasParent(dirs, k))
  }

  ghost predicate DistinctIds(files: Files) {
    forall a, b :: a in files && b in files && files[a].fileId == files[b].fileId ==> a == b
  }

  /** The counter has not given out `id` yet and never will from `next` on. */
  ghost predicate Spent(id: string, next: nat) {
    forall n: nat :: next <= n ==> id != FileIdOf(n)
  }

  ghost predicate Consistent(dirs: Dirs, files: Files, nextFile: nat) {
    && Closed(dirs, files)
    && DistinctIds(files)
    && forall k <- files :: Spent(files[k].fileId, nextFile)
  }

  ghost predicate HandlesResolve(s: Ns) {
    forall h <- s.handles :: s.handles[h].key in s.files && h < s.nextHandle
  }

  ghost predicate Core(s: Ns) {
    Consistent(s.dirs, s.files, s.nextFile) && HandlesResolve(s)
  }

  ghost predicate Inv(s: Ns) {
    && Core(s)
    && Consistent(s.index.dirs, s.index.files, s.nextFile)
    && forall k <- s.index.files :: !s.index.files[k].deletePending
  }

  lemma FileIdsDiffer(a: nat, b: nat)
    requires a != b
    ensures FileIdOf(a) != FileIdOf(b)
  {
    if FileIdOf(a) == FileIdOf(b) {
      assert FileIdOf(a)[5..] == Decimal.Padded(a, 20) && FileIdOf(b)[5..] == Decimal.Padded(b, 20);
      Decimal.PaddedInjective(a, b, 20);
    }
  }

  lemma IndexIsConsistent(s: Ns)
    requires Core(s)
    ensures Consistent(IndexOf(s).dirs, IndexOf(s).files, s.nextFile)
  {
  }

  /** Writing the index keeps the invariant whichever way it ends. */
  lemma PersistedKeeps(before: Ns, after: Ns, p: Persist)
    requires Inv(before) && Core(after) && before.nextFile == after.nextFile && before.index == after.index
    ensures Inv(Persisted(before, after, p).0)
  {
    IndexIsConsistent(after);
  }

  lemma StampKeeps(s: Ns, key: string, read: bool, wrote: bool, now: nat)
    requires Inv(s)
    ensures Inv(Stamp(s, key, read, wrote, now))
  {
    var t := Stamp(s, key, read, wrote, now);
    assert t.files.Keys == s.files.Keys;
    assert forall k <- t.files :: t.files[k].fileId == s.files[k].fileId;
  }

  lemma CreateDirectoryKeeps(s: Ns, path: VPath, now: nat, p: Persist)
    requires Inv(s)
    ensures Inv(CreateDirectory(s, path, now, p).0)
  {
    if path.key !in s.dirs && HasParent(s.dirs, path.key) {
      PersistedKeeps(s, s.(dirs := s.dirs[path.key := DirEntry(path.name, AllTimes(now))]), p);
    }
  }

  lemma NewFileKeeps(s: Ns, path: VPath, now: nat)
    requires Inv(s) && path.key !in s.files && HasParent(s.dirs, path.key)
    ensures Inv(s.(nextFile := s.nextFile + 1)) && Core(NewFile(s, path, now))
  {
    var t := NewFile(s, path, now);
    assert Spent(FileIdOf(s.nextFile), t.nextFile) by {
      forall n: nat | t.nextFile <= n ensures FileIdOf(s.nextFile) != FileIdOf(n) { FileIdsDiffer(s.nextFile, n); }
    }
    assert forall k <- s.files :: s.files[k].fileId != FileIdOf(s.nextFile);
  }

  lemma CreateOrOpenKeeps(s: Ns, path: VPath, create: bool, allowDelete: bool, now: nat, p: Persist)
    requires Inv(s)
    ensures Inv(CreateOrOpen(s, path, create, allowDelete, now, p).0)
  {
    hide Consistent, IndexOf, HasParent;
    if path.key in s.files {
      StampKeeps(s, path.key, true, false, now);
    } else if HasParent(s.dirs, path.key) {
      NewFileKeeps(s, path, now);
      PersistedKeeps(s.(nextFile := s.nextFile + 1), NewFile(s, path, now), p);
    }
  }

  lemma CloseHandleKeeps(s: Ns, h: nat, p: Persist)
    requires Inv(s)
    ensures Inv(CloseHandle(s, h, p).0)
  {
    if h in s.handles {
      var key := s.handles[h].key;
      var u := s.(handles := s.handles - {h});
      if !IsOpen(u, key) {
        PersistedKeeps(u, u.(files := u.files - {key}), p);
      }
    }
  }

  lemma DeleteKeeps(s: Ns, key: string, p: Persist)
    requires Inv(s)
    ensures Inv(Delete(s, key, p).0)
  {
    if IsDirectory(s, key) {
      if key in s.dirs && !HasChildren(s, key) {
        var t := s.(dirs := s.dirs - {key});
        forall k | k in s.dirs || k in s.files ensures HasParent(s.dirs, k) ==> HasParent(t.dirs, k) {
          if ParentKey(k) == Some(key) { ParentIsAbove(k); }
        }
        PersistedKeeps(s, t, p);
      }
    } else if key in s.files && !IsOpen(s, key) {
      PersistedKeeps(s, s.(files := s.files - {key}), p);
    }
  }

  /** Deleting removes at most the named directory and the named file, and creates nothing. */
  lemma DeleteShrinks(s: Ns, key: string, p: Persist)
    ensures var (u, r) := Delete(s, key, p);
            && u.nextFile == s.nextFile && u.handles == s.handles
            && s.dirs.Keys - {key} <= u.dirs.Keys <= s.dirs.Keys
            && (r.Ok? ==> key !in u.dirs)
  {
  }

  lemma MoveFileKeeps(u: Ns, source: string, target: VPath, now: nat)
    requires Inv(u) && source in u.files && target.key !in u.files && HasParent(u.dirs, target.key)
    ensures Core(MoveFile(u, source, target, now))
  {
  }

  /** Below a key that is no directory there is nothing. */
  lemma {:induction false} NothingUnder(dirs: Dirs, files: Files, dir: string, k: string)
    requires Closed(dirs, files) && dir !in dirs && (k in dirs || k in files)
    ensures !IsUnder(k, dir)
    decreases |k|
  {
    if IsUnder(k, dir) {
      ParentStaysUnder(k, dir);
      ParentIsAbove(k);
      NothingUnder(dirs, files, dir, ParentKey(k).value);
    }
  }

  /** The move is sound: nothing lies at or below the target, the target is outside the tree and has a parent. */
  ghost predicate Movable(u: Ns, source: string, target: string) {
    && Core(u)
    && target !in u.dirs
    && HasParent(u.dirs, target)
    && !IsUnder(target, source)
  }

  lemma UnderUnder(a: string, b: string, c: string)
    requires IsUnder(a, b) && InTree(b, c)
    ensures IsUnder(a, c)
  {
    if b != c {
      assert a[..|b|][..|c|] == a[..|c|];
      assert a[|c|] == a[..|b|][|c|];
    }
  }

  lemma KeptParent(u: Ns, source: string, target: VPath, now: nat, k: string)
    requires HasParent(u.dirs, k) && !IsUnder(k, source)
    ensures HasParent(MoveTree(u, source, target, now).dirs, k)
  {
    if ParentKey(k).Some? {
      var parent := ParentKey(k).value;
      ParentIsAbove(k);
      if InTree(parent, source) { UnderUnder(k, parent, source); }
    }
  }

  lemma MovedParentIsMoved(u: Ns, source: string, target: VPath, now: nat, k: string)
    requires HasParent(u.dirs, k) && IsUnder(k, source)
    ensures HasParent(MoveTree(u, source, target, now).dirs, Moved(k, source, target.key))
  {
    MovedParent(k, source, target.key);
    var parent := ParentKey(k).value;
    assert parent in DirTree(u.dirs, source);
  }

  lemma MoveKeepsClosed(u: Ns, source: string, target: VPath, now: nat)
    requires Movable(u, source, target.key)
    ensures var t := MoveTree(u, source, target, now); Closed(t.dirs, t.files)
  {
    var t := MoveTree(u, source, target, now);
    KeptParent(u, source, target, now, target.key);
    forall k <- t.dirs ensures HasParent(t.dirs, k) {
      if k in Relocated(DirTree(u.dirs, source), source, target.key) {
        var was := Moved(k, target.key, source);
        MovedBack(k, target.key, source);
        if was != source { MovedParentIsMoved(u, source, target, now, was); } else { assert k == target.key; }
      } else {
        KeptParent(u, source, target, now, k);
      }
    }
    forall k <- t.files ensures HasParent(t.dirs, k) {
      if k in Relocated(FileTree(u.files, source), source, target.key) {
        var was := Moved(k, target.key, source);
        MovedBack(k, target.key, source);
        MovedParentIsMoved(u, source, target, now, was);
      } else {
        KeptParent(u, source, target, now, k);
      }
    }
  }

  /** Where a file key of the moved namespace came from. */
  ghost function Origin(u: Ns, source: string, target: string, k: string): string {
    if k in Relocated(FileTree(u.files, source), source, target) then Moved(k, target, source) else k
  }

  lemma OriginIsFile(u: Ns, source: string, target: VPath, now: nat, k: string)
    requires Movable(u, source, target.key) && k in MoveTree(u, source, target, now).files
    ensures Origin(u, source, target.key, k) in u.files
    ensures MoveTree(u, source, target, now).files[k].fileId == u.files[Origin(u, source, target.key, k)].fileId
  {
  }

  lemma OriginInjective(u: Ns, source: string, target: VPath, now: nat, a: string, b: string)
    requires Movable(u, source, target.key)
    requires a in MoveTree(u, source, target, now).files && b in MoveTree(u, source, target, now).files
    requires Origin(u, source, target.key, a) == Origin(u, source, target.key, b)
    ensures a == b
  {
    var tree := FileTree(u.files, source);
    var moved := Relocated(tree, source, target.key);
    if a in moved && b in moved { MovedInjective(a, b, target.key, source); }
  }

  lemma MoveKeepsIds(u: Ns, source: string, target: VPath, now: nat)
    requires Movable(u, source, target.key)
    ensures var t := MoveTree(u, source, target, now); DistinctIds(t.files) && forall k <- t.files ::
        Spent(t.files[k].fileId, t.nextFile)
  {
    var t := MoveTree(u, source, target, now);
    forall k <- t.files ensures Spent(t.files[k].fileId, t.nextFile) { OriginIsFile(u, source, target, now, k); }
    forall a, b | a in t.files && b in t.files && t.files[a].fileId == t.files[b].fileId ensures a == b {
      OriginIsFile(u, source, target, now, a);
      OriginIsFile(u, source, target, now, b);
      OriginInjective(u, source, target, now, a, b);
    }
  }

  lemma MoveKeepsHandles(u: Ns, source: string, target: VPath, now: nat)
    requires Movable(u, source, target.key)
    ensures HandlesResolve(MoveTree(u, source, target, now))
  {
    forall h <- u.handles
      ensures MovedHandles(u.handles, source, target.key)[h].key in MovedFiles(u.files, source, target.key, now) {
      assert u.handles[h].key in u.files;
      assert IsUnder(u.handles[h].key, source) ==> u.handles[h].key in FileTree(u.files, source);
    }
  }

  lemma MoveTreeKeeps(u: Ns, source: string, target: VPath, now: nat, p: Persist)
    requires Inv(u) && Movable(u, source, target.key)
    ensures Inv(Persisted(u, MoveTree(u, source, target, now), p).0)
  {
    hide Persisted, Closed, DistinctIds, HandlesResolve, MovedDirs, MovedFiles, MovedHandles;
    MoveKeepsClosed(u, source, target, now);
    MoveKeepsIds(u, source, target, now);
    MoveKeepsHandles(u, source, target, now);
    PersistedKeeps(u, MoveTree(u, source, target, now), p);
  }

  /** What a directory rename moves into place: the state after an occupied target was deleted. */
  lemma TargetIsMovable(s: Ns, source: string, target: VPath, pd: Persist)
    requires Inv(s) && !IsUnder(target.key, source) && HasParent(s.dirs, target.key)
    ensures var (u, r) := Delete(s, target.key, pd);
            Inv(u) && (r.Ok? ==> Movable(u, source, target.key))
  {
    DeleteKeeps(s, target.key, pd);
    DeleteShrinks(s, target.key, pd);
    if ParentKey(target.key).Some? { ParentIsAbove(target.key); }
  }

  lemma RenameDirectoryKeeps(s: Ns, source: string, target: VPath, replace: bool, now: nat, pd: Persist, p: Persist)
    requires Inv(s)
    ensures Inv(RenameDirectory(s, source, target, replace, now, pd, p).0)
  {
    hide Inv, Movable, Delete, MoveTree, Persisted;
    if source == "" || IsUnder(target.key, source) || !HasParent(s.dirs, target.key) { return; }
    if target.key in s.files || target.key in s.dirs {
      TargetIsMovable(s, source, target, pd);
      var (u, r) := Delete(s, target.key, pd);
      if r.Ok? { MoveTreeKeeps(u, source, target, now, p); }
    } else {
      FreeTargetIsMovable(s, source, target.key);
      MoveTreeKeeps(s, source, target, now, p);
    }
  }

  lemma FreeTargetIsMovable(s: Ns, source: string, target: string)
    requires Inv(s) && !IsUnder(target, source) && HasParent(s.dirs, target) && target !in s.dirs
    ensures Movable(s, source, target)
  {
  }

  lemma RenameKeeps(s: Ns, source: VPath, target: VPath, replace: bool, now: nat, pd: Persist, p: Persist)
    requires Inv(s)
    ensures Inv(Rename(s, source, target, replace, now, pd, p).0)
  {
    hide Inv, ClearTarget, RenameDirectory, MoveFile, Persisted;
    if !HasParent(s.dirs, target.key) { return; }
    if IsDirectory(s, source.key) {
      RenameDirectoryKeeps(s, source.key, target, replace, now, pd, p);
    } else {
      ClearedIsFree(s, target.key, replace, pd);
      var (u, r) := if target.key in s.files then ClearTarget(s, target.key, replace, pd) else (s, Ok(()));
      if r.Ok? && source.key in u.files { PersistedMoveKeeps(u, source.key, target, now, p); }
    }
  }

  lemma ClearedIsFree(s: Ns, target: string, replace: bool, pd: Persist)
    requires Inv(s) && HasParent(s.dirs, target)
    ensures var (u, r) := ClearTarget(s, target, replace, pd);
            Inv(u) && (r.Ok? ==> target !in u.files && HasParent(u.dirs, target))
  {
    hide Inv, Delete;
    DeleteKeeps(s, target, pd);
    DeleteShrinks(s, target, pd);
    if ParentKey(target).Some? { ParentIsAbove(target); }
  }

  lemma PersistedMoveKeeps(u: Ns, source: string, target: VPath, now: nat, p: Persist)
    requires Inv(u) && source in u.files && target.key !in u.files && HasParent(u.dirs, target.key)
    ensures Inv(Persisted(u, MoveFile(u, source, target, now), p).0)
  {
    hide Consistent, Persisted, HandlesResolve;
    MoveFileKeeps(u, source, target, now);
    PersistedKeeps(u, MoveFile(u, source, target, now), p);
  }

  lemma StepKeeps(s: Ns, e: Event)
    requires Inv(s)
    ensures Inv(Next(s, e))
  {
    match e
    case CreateDirectoryCall(path, now, p) => CreateDirectoryKeeps(s, path, now, p);
    case CreateOrOpenCall(path, create, allowDelete, now, p) => CreateOrOpenKeeps(s, path, create, allowDelete, now, p);
    case UseHandleCall(h, wrote, done, now) => if h in s.handles {
      StampKeeps(s, s.handles[h].key, !wrote, wrote, now);
    }
    case FlushHandleCall(h, staged, done, now, p) =>
      if h in s.handles {
        StampKeeps(s, s.handles[h].key, false, true, now);
        var t := if staged then Stamp(s, s.handles[h].key, false, true, now) else s;
        PersistedKeeps(t, t, p);
      }
    case CloseHandleCall(h, p) => CloseHandleKeeps(s, h, p);
    case ReadPathCall(key, done, now) => StampKeeps(s, key, true, false, now);
    case RenameCall(source, target, replace, now, pd, p) => RenameKeeps(s, source, target, replace, now, pd, p);
    case DeleteCall(key, p) => DeleteKeeps(s, key, p);
    case Reopen =>
  }

  /**
   * In every reachable namespace parents are directories, handles resolve and live ids differ; the same holds of the
   * stored index.
   */
  lemma {:induction false} RunsAreSafe(events: seq<Event>)
    ensures Inv(After(EMPTY, events))
  {
    if events != [] {
      RunsAreSafe(events[..|events| - 1]);
      StepKeeps(After(EMPTY, events[..|events| - 1]), events[|events| - 1]);
    }
  }
}
