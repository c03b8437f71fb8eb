/** The encrypted namespace: directories, files and open handles, with the operations that change them. */
module Namespace {
  import opened Wire
  import opened StorageFormat
  import opened Keys
  import Decimal

  datatype Times = Times(creation: nat, access: nat, write: nat, change: nat)

  datatype DirEntry = DirEntry(display: string, times: Times)

  datatype FileEntry = FileEntry(fileId: string, display: string, deletePending: bool, times: Times)

  datatype Handle = Handle(key: string, allowDelete: bool)

  type Dirs = map<string, DirEntry>

  type Files = map<string, FileEntry>

  type Handles = map<nat, Handle>

  /** What the stored index record says; a store without an index record has an empty one. */
  datatype Index = Index(dirs: Dirs, files: Files)

  datatype Ns = Ns(dirs: Dirs, files: Files, handles: Handles, nextFile: nat, nextHandle: nat, index: Index)

  /** A caller's path: its lookup key and the name shown for its last component. */
  datatype VPath = VPath(key: string, name: string)

  /**
   * How writing the index record ended. It may fail before the rename that installs the record or,
   * when only the directory flush fails, after it.
   */
  datatype Persist = Written | Refused | WrittenThenFailed

  function FileIdOf(n: nat): string {
    "file-" + Decimal.Padded(n, 20)
  }

  function Visible(files: Files): Files {
    map k | k in files && !files[k].deletePending :: files[k]
  }

  function IndexOf(s: Ns): Index {
    Index(s.dirs, Visible(s.files))
  }

  /** Write the index of `after`; keep `after` on success and roll back to `before` on failure. */
  function Persisted(before: Ns, after: Ns, p: Persist): (Ns, Result<(), StorageError>) {
    match p
    case Written => (after.(index := IndexOf(after)), Ok(()))
    case Refused => (before, Err(IoFailure))
    case WrittenThenFailed => (before.(index := IndexOf(after)), Err(IoFailure))
  }

  predicate HasParent(dirs: Dirs, key: string) {
    var parent := ParentKey(key);
    parent.None? || parent.value in dirs
  }

  predicate IsDirectory(s: Ns, key: string) {
    key == "" || key in s.dirs
  }

  predicate IsOpen(s: Ns, key: string) {
    exists h :: h in s.handles && s.handles[h].key == key
  }

  predicate IsPinned(s: Ns, key: string) {
    exists h :: h in s.handles && s.handles[h].key == key && !s.handles[h].allowDelete
  }

  predicate HasChildren(s: Ns, key: string) {
    (exists k :: k in s.dirs && IsUnder(k, key)) || (exists k :: k in s.files && IsUnder(k, key))
  }

  function AllTimes(now: nat): Times {
    Times(now, now, now, now)
  }

  function CreateDirectory(s: Ns, path: VPath, now: nat, p: Persist): (Ns, Result<(), StorageError>) {
    if path.key in s.files || path.key in s.dirs then (s, Err(AlreadyExists))
    else if !HasParent(s.dirs, path.key) then (s, Err(NotFound))
    else Persisted(s, s.(dirs := s.dirs[path.key := DirEntry(path.name, AllTimes(now))]), p)
  }

  function Stamp(s: Ns, key: string, read: bool, wrote: bool, now: nat): Ns {
    if key !in s.files then s else
    var e := s.files[key];
    var t := Times(
      e.times.creation,
      if read then now else e.times.access,
      if wrote then now else e.times.write,
      if wrote then now else e.times.change);
    s.(files := s.files[key := e.(times := t)])
  }

  function NewHandle(s: Ns, key: string, allowDelete: bool): (Ns, Result<nat, StorageError>) {
    (s.(handles := s.handles[s.nextHandle := Handle(key, allowDelete)], nextHandle := s.nextHandle + 1),
        Ok(s.nextHandle))
  }

  function NewFile(s: Ns, path: VPath, now: nat): Ns {
    s.(files := s.files[path.key := FileEntry(FileIdOf(s.nextFile), path.name, false, AllTimes(now))],
       nextFile := s.nextFile + 1)
  }

  function CreateOrOpen(s: Ns, path: VPath, create: bool, allowDelete: bool, now: nat, p: Persist)
    : (Ns, Result<nat, StorageError>)
  {
    if path.key in s.files then
      if s.files[path.key].deletePending then (s, Err(StorageError.DeletePending))
      else NewHandle(Stamp(s, path.key, true, false, now), path.key, allowDelete)
    else if !create || !HasParent(s.dirs, path.key) then (s, Err(NotFound))
    else
      var (t, r) := Persisted(s.(nextFile := s.nextFile + 1), NewFile(s, path, now), p);
      if r.Err? then (t, Err(r.error)) else NewHandle(t, path.key, allowDelete)
  }

  /** The key of the entry an open handle stands for. */
  function HandleKey(s: Ns, h: nat): Result<string, StorageError> {
    if h in s.handles && s.handles[h].key in s.files then Ok(s.handles[h].key) else Err(NotFound)
  }

  /**
   * Handle reads, writes and truncations, as far as the namespace sees them; `done` tells whether the content operation
   * succeeded.
   */
  function UseHandle(s: Ns, h: nat, wrote: bool, done: bool, now: nat): (Ns, Result<(), StorageError>) {
    match HandleKey(s, h)
    case Err(e) => (s, Err(e))
    case Ok(key) => if done then (Stamp(s, key, !wrote, wrote, now), Ok(())) else (s, Err(IoFailure))
  }

  function FlushHandle(s: Ns, h: nat, staged: bool, done: bool, now: nat, p: Persist): (Ns, Result<(), StorageError>) {
    match HandleKey(s, h)
    case Err(e) => (s, Err(e))
    case Ok(key) =>
      if staged && !done then (s, Err(IoFailure))
      else var t := if staged then Stamp(s, key, false, true, now) else s; Persisted(t, t, p)
  }

  function CloseHandle(s: Ns, h: nat, p: Persist): (Ns, Result<(), StorageError>) {
    if h !in s.handles then (s, Err(NotFound)) else
    var key := s.handles[h].key;
    var u := s.(handles := s.handles - {h});
    if key in u.files && u.files[key].deletePending && !IsOpen(u, key)
    then Persisted(u, u.(files := u.files - {key}), p)
    else (u, Ok(()))
  }

  function DeleteDirectory(s: Ns, key: string, p: Persist): (Ns, Result<(), StorageError>) {
    if key == "" then (s, Err(SharingViolation))
    else if key !in s.dirs then (s, Err(NotFound))
    else if HasChildren(s, key) then (s, Err(SharingViolation))
    else Persisted(s, s.(dirs := s.dirs - {key}), p)
  }

  function Delete(s: Ns, key: string, p: Persist): (Ns, Result<(), StorageError>) {
    if IsDirectory(s, key) then DeleteDirectory(s, key, p)
    else if key !in s.files then (s, Err(NotFound))
    else if IsPinned(s, key) then (s, Err(SharingViolation))
    else if IsOpen(s, key) then (s.(files := s.files[key := s.files[key].(deletePending := true)]), Ok(()))
    else Persisted(s, s.(files := s.files - {key}), p)
  }

  function RenamedFile(e: FileEntry, name: string, now: nat): FileEntry {
    e.(display := name, times := e.times.(change := now))
  }

  function Redirected(handles: Handles, source: string, target: string): Handles {
    map h | h in handles :: if handles[h].key == source then handles[h].(key := target) else handles[h]
  }

  function MoveFile(u: Ns, source: string, target: VPath, now: nat): Ns
    requires source in u.files
  {
    u.(files := (u.files - {source})[target.key := RenamedFile(u.files[source], target.name, now)],
       handles := Redirected(u.handles, source, target.key))
  }

  function Rename(s: Ns, source: VPath, target: VPath, replace: bool, now: nat, pd: Persist, p: Persist)
    : (Ns, Result<(), StorageError>)
  {
    if !HasParent(s.dirs, target.key) then (s, Err(NotFound))
    else if IsDirectory(s, source.key) then RenameDirectory(s, source.key, target, replace, now, pd, p)
    else if source.key !in s.files then (s, Err(NotFound))
    else if s.files[source.key].deletePending then (s, Err(StorageError.DeletePending))
    else
      var (u, r) := if target.key in s.files then ClearTarget(s, target.key, replace, pd) else (s, Ok(()));
      if r.Err? then (u, r)
      else if source.key !in u.files then (u, Err(NotFound))
      else Persisted(u, MoveFile(u, source.key, target, now), p)
  }

  /** Before a file takes the place of another one: the old one has to go at once, not merely be marked. */
  function ClearTarget(s: Ns, key: string, replace: bool, p: Persist): (Ns, Result<(), StorageError>) {
    if !replace then (s, Err(AlreadyExists)) else
    var (u, r) := Delete(s, key, p);
    if r.Ok? && key in u.files then (u, Err(SharingViolation)) else (u, r)
  }

  /** Images of the keys in `tree` when the tree at `source` moves to `target`. */
  function Relocated(tree: set<string>, source: string, target: string): (r: set<string>)
    requires forall k <- tree :: InTree(k, source)
    ensures forall k <- r :: InTree(k, target) && Moved(k, target, source) in tree
    ensures forall k <- tree :: Moved(k, source, target) in r && Moved(Moved(k, source, target), target, source) == k
  {
    AllMovedBack(tree, source, target);
    set k | k in tree :: Moved(k, source, target)
  }

  lemma AllMovedBack(tree: set<string>, source: string, target: string)
    requires forall k <- tree :: InTree(k, source)
    ensures forall k <- tree :: InTree(Moved(k, source, target), target)
                                && Moved(Moved(k, source, target), target, source) == k
  {
    forall k <- tree
      ensures InTree(Moved(k, source, target), target) && Moved(Moved(k, source, target), target, source) == k
    {
      MovedBack(k, source, target);
    }
  }

  function DirTree(dirs: Dirs, source: string): set<string> {
    set k | k in dirs && InTree(k, source)
  }

  function FileTree(files: Files, source: string): set<string> {
    set k | k in files && IsUnder(k, source)
  }

  function MovedDir(e: DirEntry, isRoot: bool, name: string, now: nat): DirEntry {
    DirEntry(if isRoot then name else e.display, e.times.(change := now))
  }

  function MovedDirs(dirs: Dirs, source: string, target: VPath, now: nat): Dirs {
    var tree := DirTree(dirs, source);
    (dirs - tree) +
    (map k | k in Relocated(tree, source, target.key) ::
      MovedDir(dirs[Moved(k, target.key, source)], k == target.key, target.name, now))
  }

  function MovedFiles(files: Files, source: string, target: string, now: nat): Files {
    var tree := FileTree(files, source);
    (files - tree) +
    (map k | k in Relocated(tree, source, target) ::
      var e := files[Moved(k, target, source)]; e.(times := e.times.(change := now)))
  }

  function MovedHandles(handles: Handles, source: string, target: string): Handles {
    map h | h in handles ::
      if IsUnder(handles[h].key, source) then handles[h].(key := Moved(handles[h].key, source, target)) else handles[h]
  }

  function MoveTree(u: Ns, source: string, target: VPath, now: nat): Ns {
    u.(dirs := MovedDirs(u.dirs, source, target, now),
       files := MovedFiles(u.files, source, target.key, now),
       handles := MovedHandles(u.handles, source, target.key))
  }

  function RenameDirectory(s: Ns, source: string, target: VPath, replace: bool, now: nat, pd: Persist, p: Persist)
    : (Ns, Result<(), StorageError>)
  {
    if source == "" || IsUnder(target.key, source) then (s, Err(AlreadyExists))
    else if !HasParent(s.dirs, target.key) then (s, Err(NotFound))
    else
      var occupied := target.key in s.files || target.key in s.dirs;
      if occupied && !replace then (s, Err(AlreadyExists))
      else
        var (u, r) := if occupied then Delete(s, target.key, pd) else (s, Ok(()));
        if r.Err? then (u, r) else Persisted(u, MoveTree(u, source, target, now), p)
  }

  /**
   * Content of a file by path, as far as the namespace decides it; `done` tells whether reading the content succeeded.
   */
  function ReadPath(s: Ns, key: string, done: bool, now: nat): (Ns, Result<string, StorageError>) {
    if key !in s.files || s.files[key].deletePending then (s, Err(NotFound))
    else if !done then (s, Err(IoFailure))
    else (Stamp(s, key, true, false, now), Ok(s.files[key].fileId))
  }

  function EntryMetadata(s: Ns, key: string, now: nat): Result<Times, StorageError> {
    if IsDirectory(s, key) then
      if key == "" then Ok(AllTimes(now)) else if key in s.dirs then Ok(s.dirs[key].times) else Err(NotFound)
    else if key !in s.files || s.files[key].deletePending then Err(NotFound)
    else Ok(s.files[key].times)
  }

  predicate DirectChild(key: string, prefix: string) {
    prefix < key && '/' !in key[|prefix|..]
  }

  function Prefix(dir: string): string {
    if dir == "" then "" else dir + "/"
  }

  function ListedDirs(s: Ns, dir: string): set<string> {
    set k | k in s.dirs && DirectChild(k, Prefix(dir))
  }

  function ListedFiles(s: Ns, dir: string): set<string> {
    set k | k in s.files && !s.files[k].deletePending && DirectChild(k, Prefix(dir))
  }

  /** Opening the store again in the same process: handles are gone and the maps come from the index record. */
  function Reopened(s: Ns): Ns {
    s.(dirs := s.index.dirs, files := s.index.files, handles := map[])
  }

  datatype Event =
    | CreateDirectoryCall(path: VPath, now: nat, p: Persist)
    | CreateOrOpenCall(path: VPath, create: bool, allowDelete: bool, now: nat, p: Persist)
    | UseHandleCall(h: nat, wrote: bool, done: bool, now: nat)
    | FlushHandleCall(h: nat, staged: bool, done: bool, now: nat, p: Persist)
    | CloseHandleCall(h: nat, p: Persist)
    | ReadPathCall(key: string, done: bool, now: nat)
    | RenameCall(source: VPath, target: VPath, replace: bool, now: nat, pd: Persist, p: Persist)
    | DeleteCall(key: string, p: Persist)
    | Reopen

  function Next(s: Ns, e: Event): Ns {
    match e
    case CreateDirectoryCall(path, now, p) => CreateDirectory(s, path, now, p).0
    case CreateOrOpenCall(path, create, allowDelete, now, p) => CreateOrOpen(s, path, create, allowDelete, now, p).0
    case UseHandleCall(h, wrote, done, now) => UseHandle(s, h, wrote, done, now).0
    case FlushHandleCall(h, staged, done, now, p) => FlushHandle(s, h, staged, done, now, p).0
    case CloseHandleCall(h, p) => CloseHandle(s, h, p).0
    case ReadPathCall(key, done, now) => ReadPath(s, key, done, now).0
    case RenameCall(source, target, replace, now, pd, p) => Rename(s, source, target, replace, now, pd, p).0
    case DeleteCall(key, p) => Delete(s, key, p).0
    case Reopen => Reopened(s)
  }

  function After(s: Ns, events: seq<Event>): Ns {
    if events == [] then s else Next(After(s, events[..|events| - 1]), events[|events| - 1])
  }

  const EMPTY := Ns(map[], map[], map[], 1, 1, Index(map[], map[]))
}
