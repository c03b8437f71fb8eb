/** Files marked for deletion while open: they stay out of sight, lose their handles one by one and then go. */
module PendingDeletes {
  import opened Wire
  import opened StorageFormat
  import opened Keys
  import opened Namespace
  import opened NamespaceSafety
  import opened Renames

  /** Every file marked for deletion has an open handle. */
  ghost predicate PendingOpen(s: Ns) {
    forall k <- s.files :: s.files[k].deletePending ==> IsOpen(s, k)
  }

  /** Every index write of the call succeeds. */
  predicate Writes(e: Event) {
    match e
    case CreateDirectoryCall(_, _, p) => p == Written
    case CreateOrOpenCall(_, _, _, _, p) => p == Written
    case FlushHandleCall(_, _, _, _, p) => p == Written
    case CloseHandleCall(_, p) => p == Written
    case RenameCall(_, _, _, _, pd, p) => pd == Written && p == Written
    case DeleteCall(_, p) => p == Written
    case _ => true
  }

  ghost function IdOf(s: Ns, h: nat): string
    requires HandlesResolve(s) && h in s.handles
  {
    s.files[s.handles[h].key].fileId
  }

  ghost predicate Comes(s: Ns, k0: string, t: Ns, k: string)
    requires k0 in s.files && k in t.files
  {
    s.files[k0].fileId == t.files[k].fileId && (s.files[k0].deletePending ==> t.files[k].deletePending)
  }

  /** Every handle and file of `t` is one of `s`; marks are kept. */
  ghost predicate Tracks(s: Ns, t: Ns)
    requires HandlesResolve(s) && HandlesResolve(t)
  {
    && t.nextFile == s.nextFile
    && (forall h <- t.handles :: h in s.handles && IdOf(t, h) == IdOf(s, h))
    && (forall k <- t.files :: exists k0 :: k0 in s.files && Comes(s, k0, t, k))
  }

  lemma TracksTrans(s: Ns, u: Ns, t: Ns)
    requires HandlesResolve(s) && HandlesResolve(u) && HandlesResolve(t)
    requires Tracks(s, u) && Tracks(u, t)
    ensures Tracks(s, t)
  {
    forall k <- t.files ensures exists k0 :: k0 in s.files && Comes(s, k0, t, k) {
      var k1 :| k1 in u.files && Comes(u, k1, t, k);
      var k0 :| k0 in s.files && Comes(s, k0, u, k1);
      assert Comes(s, k0, t, k);
    }
  }

  /** The step keeps marked files open, keeps their marks, and writes only indexes that leave them out. */
  ghost predicate Drained(s: Ns, t: Ns) {
    && Inv(t) && HandlesResolve(s) && Tracks(s, t)
    && (PendingOpen(s) ==> PendingOpen(t))
    && (t.index == s.index || t.index == IndexOf(t))
  }

  /** Steps that leave every surviving file under its key. */
  lemma InPlaceDrains(s: Ns, t: Ns)
    requires Inv(s) && Inv(t) && t.nextFile == s.nextFile
    requires forall h <- t.handles :: h in s.handles && t.handles[h].key == s.handles[h].key
    requires forall k <- t.files :: k in s.files && Comes(s, k, t, k)
    requires PendingOpen(s) ==> PendingOpen(t)
    requires t.index == s.index || t.index == IndexOf(t)
    ensures Drained(s, t)
  {
    hide Consistent;
    forall k <- t.files ensures exists k0 :: k0 in s.files && Comes(s, k0, t, k) {
      assert Comes(s, k, t, k);
    }
  }

  /** With the same handles, marking only open files keeps marked files open. */
  lemma SameHandlesOpen(s: Ns, t: Ns)
    requires t.handles == s.handles && PendingOpen(s)
    requires forall k <- t.files :: t.files[k].deletePending ==> IsOpen(s, k)
    ensures PendingOpen(t)
  {
    forall k <- t.files | t.files[k].deletePending ensures IsOpen(t, k) {
      var g :| g in s.handles && s.handles[g].key == k;
      assert g in t.handles && t.handles[g].key == k;
    }
  }

  lemma StampDrains(s: Ns, key: string, read: bool, wrote: bool, now: nat)
    requires Inv(s)
    ensures Drained(s, Stamp(s, key, read, wrote, now))
  {
    hide Consistent, Drained, PendingOpen;
    StampKeeps(s, key, read, wrote, now);
    var t := Stamp(s, key, read, wrote, now);
    if PendingOpen(s) { StampOpen(s, key, read, wrote, now); }
    InPlaceDrains(s, t);
  }

  lemma StampOpen(s: Ns, key: string, read: bool, wrote: bool, now: nat)
    requires PendingOpen(s)
    ensures PendingOpen(Stamp(s, key, read, wrote, now))
  {
    SameHandlesOpen(s, Stamp(s, key, read, wrote, now));
  }

  lemma CloseDrains(s: Ns, h: nat)
    requires Inv(s)
    ensures Drained(s, CloseHandle(s, h, Written).0)
  {
    hide Consistent, Drained, PendingOpen;
    CloseHandleKeeps(s, h, Written);
    if PendingOpen(s) { CloseOpen(s, h); }
    InPlaceDrains(s, CloseHandle(s, h, Written).0);
  }

  lemma CloseOpen(s: Ns, h: nat)
    requires PendingOpen(s)
    ensures PendingOpen(CloseHandle(s, h, Written).0)
  {
    var t := CloseHandle(s, h, Written).0;
    if h in s.handles {
      forall k <- t.files | t.files[k].deletePending ensures IsOpen(t, k) {
        var g :| g in s.handles && s.handles[g].key == k;
        if g != h { assert g in t.handles && t.handles[g].key == k; }
      }
    }
  }

  lemma DeleteDrains(s: Ns, key: string)
    requires Inv(s)
    ensures Drained(s, Delete(s, key, Written).0)
  {
    hide Consistent, Drained, PendingOpen, HasChildren, IsPinned;
    DeleteKeeps(s, key, Written);
    var t := Delete(s, key, Written).0;
    if PendingOpen(s) { DeleteOpen(s, key); }
    InPlaceDrains(s, t);
  }

  lemma DeleteOpen(s: Ns, key: string)
    requires PendingOpen(s)
    ensures PendingOpen(Delete(s, key, Written).0)
  {
    hide HasChildren, IsPinned;
    var t := Delete(s, key, Written).0;
    SameHandlesOpen(s, t);
  }

  lemma MoveFileDrains(u: Ns, source: string, target: VPath, now: nat)
    requires Inv(u) && source in u.files && !u.files[source].deletePending
    requires target.key !in u.files && HasParent(u.dirs, target.key)
    ensures Drained(u, Persisted(u, MoveFile(u, source, target, now), Written).0)
  {
    hide Consistent;
    MoveFileKeeps(u, source, target, now);
    PersistedKeeps(u, MoveFile(u, source, target, now), Written);
    var t := Persisted(u, MoveFile(u, source, target, now), Written).0;
    forall k <- t.files ensures exists k0 :: k0 in u.files && Comes(u, k0, t, k) {
      assert Comes(u, if k == target.key then source else k, t, k);
    }
    if PendingOpen(u) {
      forall k <- t.files | t.files[k].deletePending ensures IsOpen(t, k) {
        var g :| g in u.handles && u.handles[g].key == k;
        assert g in t.handles && t.handles[g].key == k;
      }
    }
  }

  lemma MoveTreeDrains(u: Ns, source: string, target: VPath, now: nat)
    requires Inv(u) && Movable(u, source, target.key)
    ensures Drained(u, Persisted(u, MoveTree(u, source, target, now), Written).0)
  {
    hide MoveTree, Consistent, Movable, PendingOpen, Tracks;
    MoveTreeKeeps(u, source, target, now, Written);
    var m := MoveTree(u, source, target, now);
    TreeTracks(u, source, target, now);
    WrittenTracks(u, m);
    if PendingOpen(u) {
      TreeStaysOpen(u, source, target, now);
      SamePending(m, Persisted(u, m, Written).0);
    }
  }

  lemma SamePending(m: Ns, t: Ns)
    requires PendingOpen(m) && t == m.(index := t.index)
    ensures PendingOpen(t)
  {
    SameHandlesOpen(m, t);
  }

  lemma TreeTracks(u: Ns, source: string, target: VPath, now: nat)
    requires Movable(u, source, target.key)
    ensures HandlesResolve(MoveTree(u, source, target, now)) && Tracks(u, MoveTree(u, source, target, now))
  {
    hide MovedFiles, MovedDirs, MovedHandles, Movable;
    MoveTreeKeepsOpenFiles(u, source, target, now);
    TreeComes(u, source, target, now);
  }

  lemma WrittenTracks(u: Ns, m: Ns)
    requires HandlesResolve(u) && HandlesResolve(m) && Tracks(u, m)
    ensures var t := Persisted(u, m, Written).0; HandlesResolve(t) && Tracks(u, t)
  {
    var t := Persisted(u, m, Written).0;
    forall k <- t.files ensures exists k0 :: k0 in u.files && Comes(u, k0, t, k) {
      var k0 :| k0 in u.files && Comes(u, k0, m, k);
      assert Comes(u, k0, t, k);
    }
  }

  lemma TreeComes(u: Ns, source: string, target: VPath, now: nat)
    requires Movable(u, source, target.key)
    ensures var m := MoveTree(u, source, target, now);
            forall k <- m.files :: exists k0 :: k0 in u.files && Comes(u, k0, m, k)
  {
    var m := MoveTree(u, source, target, now);
    forall k <- m.files ensures exists k0 :: k0 in u.files && Comes(u, k0, m, k) {
      assert Comes(u, Origin(u, source, target.key, k), m, k);
    }
  }

  lemma TreeStaysOpen(u: Ns, source: string, target: VPath, now: nat)
    requires Movable(u, source, target.key) && PendingOpen(u)
    ensures PendingOpen(MoveTree(u, source, target, now))
  {
    var m := MoveTree(u, source, target, now);
    forall k <- m.files | m.files[k].deletePending ensures IsOpen(m, k) {
      var k0 := Origin(u, source, target.key, k);
      if k in Relocated(FileTree(u.files, source), source, target.key) { MovedBack(k, target.key, source); }
      var g :| g in u.handles && u.handles[g].key == k0;
      assert g in m.handles && m.handles[g].key == k;
    }
  }

  lemma SameDrains(s: Ns)
    requires Inv(s)
    ensures Drained(s, s)
  {
    forall k <- s.files ensures exists k0 :: k0 in s.files && Comes(s, k0, s, k) { assert Comes(s, k, s, k); }
  }

  lemma RenameDirectoryDrains(s: Ns, source: string, target: VPath, replace: bool, now: nat)
    requires Inv(s)
    ensures Drained(s, RenameDirectory(s, source, target, replace, now, Written, Written).0)
  {
    hide Inv, Drained, Movable, Delete, MoveTree;
    SameDrains(s);
    if source == "" || IsUnder(target.key, source) || !HasParent(s.dirs, target.key) { return; }
    if target.key in s.files || target.key in s.dirs {
      DeleteDrains(s, target.key);
      TargetIsMovable(s, source, target, Written);
      var (u, r) := Delete(s, target.key, Written);
      if r.Ok? { MoveTreeDrains(u, source, target, now); WrittenTrans(s, u, MoveTree(u, source, target, now)); }
    } else {
      FreeTargetIsMovable(s, source, target.key);
      MoveTreeDrains(s, source, target, now);
    }
  }

  lemma WrittenTrans(s: Ns, u: Ns, m: Ns)
    requires Drained(s, u) && Drained(u, Persisted(u, m, Written).0)
    ensures Drained(s, Persisted(u, m, Written).0)
  {
    TracksTrans(s, u, Persisted(u, m, Written).0);
  }

  lemma RenameDrains(s: Ns, source: VPath, target: VPath, replace: bool, now: nat)
    requires Inv(s)
    ensures Drained(s, Rename(s, source, target, replace, now, Written, Written).0)
  {
    hide Inv, Drained, MoveFile, MoveTree, Persisted;
    SameDrains(s);
    if !HasParent(s.dirs, target.key) { return; }
    if IsDirectory(s, source.key) {
      RenameDirectoryDrains(s, source.key, target, replace, now);
    } else if source.key in s.files && !s.files[source.key].deletePending {
      DeleteDrains(s, target.key);
      RenameFileDrains(s, source.key, target, replace, now);
    }
  }

  lemma RenameFileDrains(s: Ns, source: string, target: VPath, replace: bool, now: nat)
    requires Inv(s) && HasParent(s.dirs, target.key)
    requires source in s.files && !s.files[source].deletePending
    requires Drained(s, Delete(s, target.key, Written).0)
    ensures var (u, r) := if target.key in s.files then ClearTarget(s, target.key, replace, Written) else (s, Ok(()));
            Drained(s, u) && (r.Ok? && source in u.files
                ==> Drained(s, Persisted(u, MoveFile(u, source, target, now), Written).0))
  {
    hide Drained, MoveFile;
    SameDrains(s);
    DeleteShrinks(s, target.key, Written);
    DeleteKeeps(s, target.key, Written);
    if ParentKey(target.key).Some? { ParentIsAbove(target.key); }
    var (u, r) := if target.key in s.files then ClearTarget(s, target.key, replace, Written) else (s, Ok(()));
    if r.Ok? && source in u.files {
      MoveFileDrains(u, source, target, now);
      WrittenTrans(s, u, MoveFile(u, source, target, now));
    }
  }

  lemma FlushDrains(s: Ns, h: nat, staged: bool, done: bool, now: nat)
    requires Inv(s)
    ensures Drained(s, FlushHandle(s, h, staged, done, now, Written).0)
  {
    hide Inv, Drained, Stamp;
    SameDrains(s);
    if HandleKey(s, h).Ok? && !(staged && !done) {
      var key := HandleKey(s, h).value;
      StampDrains(s, key, false, true, now);
      StampKeeps(s, key, false, true, now);
      var t := if staged then Stamp(s, key, false, true, now) else s;
      RewrittenDrains(t);
      WrittenTrans(s, t, t);
    }
  }

  lemma RewrittenDrains(s: Ns)
    requires Inv(s)
    ensures Drained(s, Persisted(s, s, Written).0)
  {
    hide Consistent, Drained;
    PersistedKeeps(s, s, Written);
    SameFilesDrain(s, Persisted(s, s, Written).0);
  }

  lemma SameFilesDrain(s: Ns, t: Ns)
    requires Inv(s) && Inv(t) && t.files == s.files && t.handles == s.handles && t.nextFile == s.nextFile
    requires t.index == s.index || t.index == IndexOf(t)
    ensures Drained(s, t)
  {
    hide Consistent, Drained;
    if PendingOpen(s) { SameHandlesOpen(s, t); }
    InPlaceDrains(s, t);
  }

  /** Calls that neither open handles nor reopen the store. */
  lemma StepDrains(s: Ns, e: Event)
    requires Inv(s) && Writes(e) && !e.Reopen? && !e.CreateOrOpenCall?
    ensures Drained(s, Next(s, e))
  {
    hide Inv, Drained, Rename, Delete, CloseHandle, FlushHandle, Stamp;
    SameDrains(s);
    StepKeeps(s, e);
    match e
    case CreateDirectoryCall(path, now, p) => SameFilesDrain(s, CreateDirectory(s, path, now, p).0);
    case UseHandleCall(h, wrote, done, now) =>
      if h in s.handles { StampDrains(s, s.handles[h].key, !wrote, wrote, now); }
    case FlushHandleCall(h, staged, done, now, p) => FlushDrains(s, h, staged, done, now);
    case CloseHandleCall(h, p) => CloseDrains(s, h);
    case ReadPathCall(key, done, now) => StampDrains(s, key, true, false, now);
    case RenameCall(source, target, replace, now, pd, p) => RenameDrains(s, source, target, replace, now);
    case DeleteCall(key, p) => DeleteDrains(s, key);
  }

  /** Handles open on the file with this id. */
  ghost function OpenOn(s: Ns, id: string): set<nat>
    requires HandlesResolve(s)
  {
    set h | h in s.handles && IdOf(s, h) == id
  }

  ghost predicate Exists(s: Ns, id: string) {
    exists k :: k in s.files && s.files[k].fileId == id
  }

  /** The file with this id is marked for deletion, or already gone for good. */
  ghost predicate Doomed(s: Ns, id: string) {
    Spent(id, s.nextFile) && forall k <- s.files :: s.files[k].fileId == id ==> s.files[k].deletePending
  }

  ghost predicate InIndex(i: Index, id: string) {
    exists k :: k in i.files && i.files[k].fileId == id
  }

  lemma DrainedKeepsDoomed(s: Ns, t: Ns, id: string)
    requires Drained(s, t) && PendingOpen(s) && Doomed(s, id)
    ensures Doomed(t, id) && OpenOn(t, id) <= OpenOn(s, id)
    ensures t.index == s.index || !InIndex(t.index, id)
  {
    forall k <- t.files | t.files[k].fileId == id ensures t.files[k].deletePending {
      var k0 :| k0 in s.files && Comes(s, k0, t, k);
    }
  }

  /** What opening does: nothing, or one new handle on an unmarked file that was there or has a new id. */
  ghost predicate Opened(s: Ns, t: Ns, key: string, allowDelete: bool) {
    && t.handles == s.handles[s.nextHandle := Handle(key, allowDelete)]
    && key in t.files && !t.files[key].deletePending
    && t.files.Keys == s.files.Keys + {key}
    && (forall k <- s.files ::
        t.files[k].fileId == s.files[k].fileId && t.files[k].deletePending == s.files[k].deletePending)
    && (key !in s.files ==> t.files[key].fileId == FileIdOf(s.nextFile))
    && t.nextFile >= s.nextFile
    && (t.index == s.index || t.index == IndexOf(t))
  }

  lemma OpenOutcome(s: Ns, path: VPath, create: bool, allowDelete: bool, now: nat)
    ensures var t := CreateOrOpen(s, path, create, allowDelete, now, Written).0;
            t == s || Opened(s, t, path.key, allowDelete)
  {
  }

  lemma OpenedStaysOpen(s: Ns, t: Ns, key: string, allowDelete: bool)
    requires HandlesResolve(s) && PendingOpen(s) && Opened(s, t, key, allowDelete)
    ensures PendingOpen(t)
  {
    forall k <- t.files | t.files[k].deletePending ensures IsOpen(t, k) {
      var g :| g in s.handles && s.handles[g].key == k;
      assert g in t.handles && t.handles[g].key == k;
    }
  }

  lemma OpenedKeepsDoomed(s: Ns, t: Ns, key: string, allowDelete: bool, id: string)
    requires HandlesResolve(s) && HandlesResolve(t) && Opened(s, t, key, allowDelete) && Doomed(s, id)
    ensures Doomed(t, id) && OpenOn(t, id) <= OpenOn(s, id)
    ensures t.index == s.index || !InIndex(t.index, id)
  {
    assert t.files[key].fileId != id;
    forall h <- OpenOn(t, id) ensures h in OpenOn(s, id) {
      assert h != s.nextHandle;
      assert h in s.handles && s.handles[h].key in s.files;
    }
  }

  lemma StepKeepsDoomed(s: Ns, e: Event, id: string)
    requires Inv(s) && Writes(e) && !e.Reopen? && PendingOpen(s) && Doomed(s, id)
    ensures var t := Next(s, e); Inv(t) && PendingOpen(t) && Doomed(t, id) && OpenOn(t, id) <= OpenOn(s, id)
    ensures var t := Next(s, e); t.index == s.index || !InIndex(t.index, id)
  {
    hide Opened, CreateOrOpen, Rename, Delete, CloseHandle, FlushHandle, Stamp, Consistent, PendingOpen, Doomed;
    StepKeeps(s, e);
    if e.CreateOrOpenCall? {
      OpenOutcome(s, e.path, e.create, e.allowDelete, e.now);
      if Next(s, e) != s {
        OpenedStaysOpen(s, Next(s, e), e.path.key, e.allowDelete);
        OpenedKeepsDoomed(s, Next(s, e), e.path.key, e.allowDelete, id);
      }
    } else {
      StepDrains(s, e);
      DrainedKeepsDoomed(s, Next(s, e), id);
    }
  }

  /** While index writes succeed, every reachable marked file is open. */
  lemma {:induction false} MarkedFilesAreOpen(events: seq<Event>)
    requires forall e <- events :: Writes(e)
    ensures Inv(After(EMPTY, events)) && PendingOpen(After(EMPTY, events))
  {
    if events != [] {
      var before, e := events[..|events| - 1], events[|events| - 1];
      MarkedFilesAreOpen(before);
      StepKeepsOpen(After(EMPTY, before), e);
    }
  }

  lemma StepKeepsOpen(s: Ns, e: Event)
    requires Inv(s) && PendingOpen(s) && Writes(e)
    ensures Inv(Next(s, e)) && PendingOpen(Next(s, e))
  {
    hide Opened, CreateOrOpen, Rename, Delete, CloseHandle, FlushHandle, Stamp, Consistent;
    StepKeeps(s, e);
    if e.CreateOrOpenCall? {
      OpenOutcome(s, e.path, e.create, e.allowDelete, e.now);
      if Next(s, e) != s { OpenedStaysOpen(s, Next(s, e), e.path.key, e.allowDelete); }
    } else if !e.Reopen? {
      StepDrains(s, e);
    }
  }

  /**
   * Over any calls on an open store, a file marked for deletion only loses handles, exists exactly as long as
   * one is left, stays marked, and appears in no index written meanwhile.
   */
  lemma {:induction false} MarkedFilesOnlyDrain(s: Ns, events: seq<Event>, id: string)
    requires Inv(s) && PendingOpen(s) && Doomed(s, id) && forall e <- events :: Writes(e) && !e.Reopen?
    ensures var t := After(s, events);
            && Inv(t) && PendingOpen(t) && Doomed(t, id)
            && OpenOn(t, id) <= OpenOn(s, id)
            && (Exists(t, id) <==> OpenOn(t, id) != {})
            && (t.index == s.index || !InIndex(t.index, id))
  {
    if events != [] {
      var before, e := events[..|events| - 1], events[|events| - 1];
      MarkedFilesOnlyDrain(s, before, id);
      StepKeepsDoomed(After(s, before), e, id);
    }
    ExistsExactlyWhileOpen(After(s, events), id);
  }

  lemma ExistsExactlyWhileOpen(s: Ns, id: string)
    requires Inv(s) && PendingOpen(s) && Doomed(s, id)
    ensures Exists(s, id) <==> OpenOn(s, id) != {}
  {
    if Exists(s, id) {
      var k :| k in s.files && s.files[k].fileId == id;
      var h :| h in s.handles && s.handles[h].key == k;
      assert h in OpenOn(s, id);
    }
    if OpenOn(s, id) != {} {
      var h :| h in OpenOn(s, id);
      assert s.handles[h].key in s.files;
    }
  }

  /** Closing the last handle removes the file from the namespace and from the index. */
  lemma LastCloseRemoves(s: Ns, h: nat, id: string)
    requires Inv(s) && PendingOpen(s) && Doomed(s, id) && OpenOn(s, id) == {h}
    ensures var t := CloseHandle(s, h, Written).0; !Exists(t, id) && !InIndex(t.index, id)
  {
    assert h in OpenOn(s, id);
    var key := s.handles[h].key;
    var u := s.(handles := s.handles - {h});
    forall g <- u.handles ensures u.handles[g].key != key { assert g !in OpenOn(s, id); }
    assert s.files[key].deletePending;
  }

  /** A failed index write on the last close, and only that, leaves a marked file without any handle. */
  lemma CloseStrandsExactlyOnFailure(s: Ns, h: nat, p: Persist)
    requires Inv(s) && PendingOpen(s) && h in s.handles
    ensures var key := s.handles[h].key;
            PendingOpen(CloseHandle(s, h, p).0)
            <==> p == Written || !s.files[key].deletePending || exists g ::
                g in s.handles && g != h && s.handles[g].key == key
  {
    var key := s.handles[h].key;
    var t := CloseHandle(s, h, p).0;
    forall k <- t.files | t.files[k].deletePending && k != key ensures IsOpen(t, k) {
      var g :| g in s.handles && s.handles[g].key == k;
      assert g in t.handles && t.handles[g].key == k;
    }
    if g :| g in s.handles && g != h && s.handles[g].key == key {
      assert g in t.handles && t.handles[g].key == key;
    } else if p != Written && s.files[key].deletePending {
      assert key in t.files && !IsOpen(t, key);
    }
  }

  /**
   * Over any calls on an open store a marked file stays out of sight: wherever directory renames have moved it, no
   * path read, no opening, no listing, no metadata and no new index shows it.
   */
  lemma MarkedFilesAreInvisible(s: Ns, events: seq<Event>, id: string, path: VPath, dir: string, done: bool,
      now: nat, p: Persist)
    requires Inv(s) && PendingOpen(s) && Doomed(s, id) && forall e <- events :: Writes(e) && !e.Reopen?
    ensures var t, k := After(s, events), path.key;
            && (k in t.files && t.files[k].fileId == id ==>
                  && ReadPath(t, k, done, now) == (t, Err(NotFound))
                  && CreateOrOpen(t, path, true, true, now, p) == (t, Err(StorageError.DeletePending))
                  && k !in ListedFiles(t, dir)
                  && (EntryMetadata(t, k, now).Ok? ==> IsDirectory(t, k)))
            && !InIndex(IndexOf(t), id)
  {
    hide Inv, PendingOpen, After;
    MarkedFilesOnlyDrain(s, events, id);
  }

  /** A listing shows exactly the entries whose parent is the listed directory. */
  lemma ListingShowsChildren(s: Ns, dir: string, k: string)
    requires k != "" && k[|k| - 1] != '/'
    ensures k in ListedDirs(s, dir) <==> k in s.dirs && ParentKey(k) == (if dir == "" then None else Some(dir))
    ensures k in ListedFiles(s, dir) <==>
            k in s.files && !s.files[k].deletePending && ParentKey(k) == (if dir == "" then None else Some(dir))
  {
    var prefix := Prefix(dir);
    if dir == "" {
      assert k[0..] == k;
    } else if DirectChild(k, prefix) {
      assert k[|dir|] == prefix[|dir|] && forall i :: |prefix| <= i < |k| ==> k[i] == k[|prefix|..][i - |prefix|];
      LastSlashIs(k, |dir|);
      assert k[..|dir|] == prefix[..|dir|];
    } else if |prefix| < |k| && k[..|dir|] == dir && k[|dir|] == '/' {
      assert k[..|prefix|] == prefix;
    }
  }
}
