/**
 * The index text over whole runs: what a reachable namespace prints can be read back, and the loops that print and read
 * it.
 */
module IndexedRuns {
  import opened Wire
  import opened StorageFormat
  import opened Keys
  import opened Texts
  import opened Namespace
  import opened NamespaceSafety
  import opened VirtualPaths
  import opened NamespaceIndex
  import Decimal

  predicate GoodDir(k: string, e: DirEntry) {
    k != "" && Clean(k) && e.display != "" && Clean(e.display) && GoodTimes(e.times)
  }

  predicate GoodFile(k: string, e: FileEntry) {
    k != "" && Clean(k) && e.display != "" && Clean(e.display) && GoodTimes(e.times) && ValidFileId(e.fileId)
  }

  ghost predicate Good(dirs: Dirs, files: Files) {
    (forall k <- dirs :: GoodDir(k, dirs[k])) && (forall k <- files :: GoodFile(k, files[k]))
  }

  ghost predicate Storable(s: Ns) {
    Good(s.dirs, s.files) && Good(s.index.dirs, s.index.files)
  }

  predicate GoodPath(path: VPath) {
    path.key != "" && Clean(path.key) && path.name != "" && Clean(path.name)
  }

  /** Paths that create entries were accepted by the parser, and clock readings fit 64 bits. */
  predicate GoodEvent(e: Event) {
    match e
    case CreateDirectoryCall(path, now, _) => GoodPath(path) && now < U64
    case CreateOrOpenCall(path, _, _, now, _) => GoodPath(path) && now < U64
    case UseHandleCall(_, _, _, now) => now < U64
    case FlushHandleCall(_, _, _, now, _) => now < U64
    case ReadPathCall(_, _, now) => now < U64
    case RenameCall(_, target, _, now, _, _) => GoodPath(target) && now < U64
    case _ => true
  }

  /** The path an accepted input names. */
  function PathOf(v: VirtualPath): VPath {
    VPath(v.lookup, if v.display == [] then "" else v.display[|v.display| - 1])
  }

  lemma ParsedPathIsGood(input: string)
    requires Parse(input).Ok?
    ensures GoodPath(PathOf(Parse(input).value))
  {
    ParsedIsClean(input);
    ParsedComponents(input);
  }

  lemma GoodIsPrintable(dirs: Dirs, files: Files)
    requires Good(dirs, files)
    ensures Printable(dirs, files) && Named(dirs, files)
  {
  }

  lemma PersistedIsStorable(before: Ns, after: Ns, p: Persist)
    requires Storable(before) && Good(after.dirs, after.files) && after.index == before.index
    ensures Storable(Persisted(before, after, p).0)
  {
  }

  lemma StampIsStorable(s: Ns, key: string, read: bool, wrote: bool, now: nat)
    requires Storable(s) && now < U64
    ensures Storable(Stamp(s, key, read, wrote, now))
  {
  }

  lemma FileIdIsValid(n: nat)
    requires n < U64
    ensures ValidFileId(FileIdOf(n))
  {
    Decimal.U64Digits(n);
    forall c <- Decimal.Padded(n, 20) ensures '0' <= c <= '9' { assert Decimal.IsDigit(c); }
  }

  lemma CreateOrOpenIsStorable(s: Ns, path: VPath, create: bool, allowDelete: bool, now: nat, p: Persist)
    requires Storable(s) && GoodPath(path) && now < U64 && s.nextFile < U64
    ensures Storable(CreateOrOpen(s, path, create, allowDelete, now, p).0)
  {
    hide Good, GoodPath, Stamp;
    if path.key in s.files {
      StampIsStorable(s, path.key, true, false, now);
    } else {
      NewFileIsGood(s, path, now);
      PersistedIsStorable(s.(nextFile := s.nextFile + 1), NewFile(s, path, now), p);
    }
  }

  lemma NewFileIsGood(s: Ns, path: VPath, now: nat)
    requires Storable(s) && GoodPath(path) && now < U64 && s.nextFile < U64
    ensures Good(NewFile(s, path, now).dirs, NewFile(s, path, now).files)
  {
    FileIdIsValid(s.nextFile);
  }

  lemma DeleteIsStorable(s: Ns, key: string, p: Persist)
    requires Storable(s)
    ensures Storable(Delete(s, key, p).0)
  {
    hide HasChildren, IsPinned, IsOpen;
    if key in s.dirs { PersistedIsStorable(s, s.(dirs := s.dirs - {key}), p); }
    if key in s.files { PersistedIsStorable(s, s.(files := s.files - {key}), p); }
  }

  lemma MovedIsClean(k: string, source: string, target: string)
    requires InTree(k, source) && Clean(k) && Clean(target) && target != ""
    ensures Moved(k, source, target) != "" && Clean(Moved(k, source, target))
  {
    var m := Moved(k, source, target);
    forall i | 0 <= i < |m| ensures m[i] != '\t' && m[i] != '\n' && m[i] != '\r' {
      if i < |target| { assert m[i] == target[i] && target[i] in target; }
      else { assert m[i] == k[i - |target| + |source|] && k[i - |target| + |source|] in k; }
    }
  }

  lemma MovedDirsAreGood(u: Ns, source: string, target: VPath, now: nat, k: string)
    requires Good(u.dirs, u.files) && GoodPath(target) && now < U64 && k in MovedDirs(u.dirs, source, target, now)
    ensures GoodDir(k, MovedDirs(u.dirs, source, target, now)[k])
  {
    if k in Relocated(DirTree(u.dirs, source), source, target.key) {
      var was := Moved(k, target.key, source);
      MovedBack(k, target.key, source);
      assert GoodDir(was, u.dirs[was]);
      MovedIsClean(was, source, target.key);
    }
  }

  lemma MovedFilesAreGood(u: Ns, source: string, target: VPath, now: nat, k: string)
    requires Good(u.dirs, u.files) && GoodPath(target) && now < U64 && k in MovedFiles(u.files, source, target.key, now)
    ensures GoodFile(k, MovedFiles(u.files, source, target.key, now)[k])
  {
    if k in Relocated(FileTree(u.files, source), source, target.key) {
      var was := Moved(k, target.key, source);
      MovedBack(k, target.key, source);
      assert GoodFile(was, u.files[was]);
      MovedIsClean(was, source, target.key);
    }
  }

  lemma MoveTreeIsGood(u: Ns, source: string, target: VPath, now: nat)
    requires Good(u.dirs, u.files) && GoodPath(target) && now < U64
    ensures Good(MoveTree(u, source, target, now).dirs, MoveTree(u, source, target, now).files)
  {
    hide GoodDir, GoodFile, MovedDirs, MovedFiles, GoodPath;
    var t := MoveTree(u, source, target, now);
    forall k <- t.dirs ensures GoodDir(k, t.dirs[k]) { MovedDirsAreGood(u, source, target, now, k); }
    forall k <- t.files ensures GoodFile(k, t.files[k]) { MovedFilesAreGood(u, source, target, now, k); }
  }

  lemma RenameIsStorable(s: Ns, source: VPath, target: VPath, replace: bool, now: nat, pd: Persist, p: Persist)
    requires Storable(s) && GoodPath(target) && now < U64
    ensures Storable(Rename(s, source, target, replace, now, pd, p).0)
  {
    hide Good, GoodPath, MoveTree, MoveFile, Delete;
    DeleteIsStorable(s, target.key, pd);
    if IsDirectory(s, source.key) {
      var occupied := target.key in s.files || target.key in s.dirs;
      var (u, r) := if occupied then Delete(s, target.key, pd) else (s, Ok(()));
      MoveTreeIsGood(u, source.key, target, now);
      MovedIndex(u, source.key, target, now);
      PersistedIsStorable(u, MoveTree(u, source.key, target, now), p);
    } else {
      var (u, r) := if target.key in s.files then ClearTarget(s, target.key, replace, pd) else (s, Ok(()));
      if source.key in u.files {
        MoveFileIsGood(u, source.key, target, now);
        PersistedIsStorable(u, MoveFile(u, source.key, target, now), p);
      }
    }
  }

  lemma MovedIndex(u: Ns, source: string, target: VPath, now: nat)
    ensures MoveTree(u, source, target, now).index == u.index
  {
  }

  lemma MoveFileIsGood(u: Ns, source: string, target: VPath, now: nat)
    requires Good(u.dirs, u.files) && GoodPath(target) && now < U64 && source in u.files
    ensures var t := MoveFile(u, source, target, now); Good(t.dirs, t.files) && t.index == u.index
  {
  }

  lemma StepIsStorable(s: Ns, e: Event)
    requires Storable(s) && GoodEvent(e) && s.nextFile < U64
    ensures Storable(Next(s, e)) && Next(s, e).nextFile <= s.nextFile + 1
  {
    hide Good, GoodPath, Rename, Delete, Stamp, CreateOrOpen;
    CounterSteps(s, e);
    match e
    case CreateDirectoryCall(path, now, p) => CreateDirectoryIsStorable(s, path, now, p);
    case CreateOrOpenCall(path, create, allowDelete, now, p) => CreateOrOpenIsStorable(s, path, create, allowDelete,
        now, p);
    case UseHandleCall(h, wrote, done, now) =>
      if h in s.handles { StampIsStorable(s, s.handles[h].key, !wrote, wrote, now); }
    case FlushHandleCall(h, staged, done, now, p) =>
      if h in s.handles {
        StampIsStorable(s, s.handles[h].key, false, true, now);
        var t := if staged then Stamp(s, s.handles[h].key, false, true, now) else s;
        PersistedIsStorable(t, t, p);
      }
    case CloseHandleCall(h, p) => CloseIsStorable(s, h, p);
    case ReadPathCall(key, done, now) => StampIsStorable(s, key, true, false, now);
    case RenameCall(source, target, replace, now, pd, p) => RenameIsStorable(s, source, target, replace, now, pd, p);
    case DeleteCall(key, p) => DeleteIsStorable(s, key, p);
    case Reopen =>
  }

  lemma CounterSteps(s: Ns, e: Event)
    ensures Next(s, e).nextFile <= s.nextFile + 1
  {
    hide Rename, Delete, IsOpen, Visible, HasParent;
    match e
    case RenameCall(source, target, replace, now, pd, p) => RenameKeepsCounter(s, source, target, replace, now, pd, p);
    case DeleteCall(key, p) => DeleteShrinks(s, key, p);
    case _ =>
  }

  lemma RenameKeepsCounter(s: Ns, source: VPath, target: VPath, replace: bool, now: nat, pd: Persist, p: Persist)
    ensures Rename(s, source, target, replace, now, pd, p).0.nextFile == s.nextFile
  {
    hide Delete, MovedDirs, MovedFiles, MovedHandles, Redirected, Visible, IsUnder, HasParent;
    DeleteShrinks(s, target.key, pd);
  }

  lemma CreateDirectoryIsStorable(s: Ns, path: VPath, now: nat, p: Persist)
    requires Storable(s) && GoodPath(path) && now < U64
    ensures Storable(CreateDirectory(s, path, now, p).0)
  {
    PersistedIsStorable(s, s.(dirs := s.dirs[path.key := DirEntry(path.name, AllTimes(now))]), p);
  }

  lemma CloseIsStorable(s: Ns, h: nat, p: Persist)
    requires Storable(s)
    ensures Storable(CloseHandle(s, h, p).0)
  {
    if h in s.handles {
      var u := s.(handles := s.handles - {h});
      PersistedIsStorable(u, u.(files := u.files - {s.handles[h].key}), p);
    }
  }

  lemma {:induction false} RunsAreStorable(events: seq<Event>)
    requires |events| + 1 < U64 && forall e <- events :: GoodEvent(e)
    ensures Storable(After(EMPTY, events)) && After(EMPTY, events).nextFile <= |events| + 1
  {
    if events != [] {
      var before := events[..|events| - 1];
      RunsAreStorable(before);
      StepIsStorable(After(EMPTY, before), events[|events| - 1]);
    }
  }

  /** Whatever happened before, the index text of the namespace reads back as its directories and unmarked files. */
  lemma EveryIndexLoads(events: seq<Event>, dirOrder: seq<string>, fileOrder: seq<string>, now: nat)
    requires |events| + 1 < U64 && forall e <- events :: GoodEvent(e)
    requires Lists(dirOrder, After(EMPTY, events).dirs.Keys) && Lists(fileOrder, After(EMPTY, events).files.Keys)
    ensures var s := After(EMPTY, events);
            Load(PrintIndex(s.dirs, s.files, dirOrder, fileOrder), now) == Ok(IndexOf(s))
  {
    var s := After(EMPTY, events);
    RunsAreStorable(events);
    GoodIsPrintable(s.dirs, s.files);
    LoadsWhatWasWritten(s, dirOrder, fileOrder, now);
  }

  /** Creating the nameless root as a directory succeeds, but the index then written cannot be loaded. */
  lemma RootDirectoryBreaksIndex(s: Ns, now: nat, dirOrder: seq<string>, fileOrder: seq<string>, later: nat)
    requires Storable(s) && now < U64
    requires var t := CreateDirectory(s, VPath("", ""), now, Written).0;
             Lists(dirOrder, t.dirs.Keys) && Lists(fileOrder, t.files.Keys)
    ensures var (t, r) := CreateDirectory(s, VPath("", ""), now, Written);
            r.Ok? && Load(PrintIndex(t.dirs, t.files, dirOrder, fileOrder), later) == Err(IntegrityFailure)
  {
    var (t, r) := CreateDirectory(s, VPath("", ""), now, Written);
    GoodIsPrintable(s.dirs, s.files);
    assert "" in t.dirs;
    LoadsWhatWasWritten(t, dirOrder, fileOrder, later);
  }

  lemma DirLinesAppend(dirs: Dirs, order: seq<string>, k: string)
    requires (forall x <- order :: x in dirs) && k in dirs
    ensures DirLines(dirs, order + [k]) == DirLines(dirs, order) + [DirLine(k, dirs[k])]
  {
    if order != [] {
      assert (order + [k])[1..] == order[1..] + [k];
      DirLinesAppend(dirs, order[1..], k);
    } else {
      assert (order + [k])[1..] == [];
    }
  }

  lemma {:induction false} FileLinesAppend(files: Files, order: seq<string>, k: string)
    requires (forall x <- order :: x in files) && k in files
    ensures FileLines(files, order + [k])
            == if files[k].deletePending then FileLines(files, order)
                else FileLines(files, order) + [FileLine(k, files[k])]
  {
    if order != [] {
      assert (order + [k])[1..] == order[1..] + [k];
      FileLinesAppend(files, order[1..], k);
    } else {
      assert (order + [k])[1..] == [];
    }
  }

  lemma TextAppend(lines: seq<string>, line: string)
    ensures Text(lines + [line]) == Text(lines) + line + ['\n']
  {
    var old1, new1 := lines + [""], (lines + [line]) + [""];
    JoinInit(new1, '\n');
    assert new1[..|new1| - 1] == lines + [line];
    if lines == [] {
      assert old1 == [""];
    } else {
      JoinInit(old1, '\n');
      JoinInit(lines + [line], '\n');
      assert old1[..|old1| - 1] == lines && (lines + [line])[..|lines|] == lines;
    }
  }

  lemma ListsOneMore(order: seq<string>, keys: set<string>, k: string)
    requires Lists(order, keys) && k !in keys
    ensures Lists(order + [k], keys + {k})
  {
    assert forall i :: 0 <= i < |order| ==> order[i] in order;
  }

  method PrintDirs(dirs: Dirs, ghost lines: seq<string>) returns (text: string, ghost order: seq<string>)
    ensures Lists(order, dirs.Keys)
    ensures Text(lines) + text == Text(lines + DirLines(dirs, order))
  {
    hide Text, DirLine, Lists, DirLines;
    var todo := dirs.Keys;
    text, order := "", [];
    NoLines(lines, dirs, map[]);
    while todo != {}
      invariant todo <= dirs.Keys && Lists(order, dirs.Keys - todo) && forall x <- order :: x in dirs
      invariant Text(lines) + text == Text(lines + DirLines(dirs, order))
      decreases |todo|
    {
      var k :| k in todo;
      var line := DirLine(k, dirs[k]);
      DirLinesAppend(dirs, order, k);
      TextAppend(lines + DirLines(dirs, order), line);
      assert lines + DirLines(dirs, order) + [line] == lines + DirLines(dirs, order + [k]);
      assert Text(lines) + (text + line + "\n") == Text(lines) + text + line + ['\n'];
      ListsOneMore(order, dirs.Keys - todo, k);
      assert dirs.Keys - todo + {k} == dirs.Keys - (todo - {k});
      text, order, todo := text + line + "\n", order + [k], todo - {k};
    }
    assert dirs.Keys - todo == dirs.Keys;
  }

  method PrintFiles(files: Files, ghost lines: seq<string>) returns (text: string, ghost order: seq<string>)
    ensures Lists(order, files.Keys)
    ensures Text(lines) + text == Text(lines + FileLines(files, order))
  {
    hide Text, FileLine, Lists, FileLines;
    var todo := files.Keys;
    text, order := "", [];
    NoLines(lines, map[], files);
    while todo != {}
      invariant todo <= files.Keys && Lists(order, files.Keys - todo) && forall x <- order :: x in files
      invariant Text(lines) + text == Text(lines + FileLines(files, order))
      decreases |todo|
    {
      var k :| k in todo;
      FileLinesAppend(files, order, k);
      if !files[k].deletePending {
        var line := FileLine(k, files[k]);
        TextAppend(lines + FileLines(files, order), line);
        assert lines + FileLines(files, order) + [line] == lines + FileLines(files, order + [k]);
        assert Text(lines) + (text + line + "\n") == Text(lines) + text + line + ['\n'];
        text := text + line + "\n";
      }
      ListsOneMore(order, files.Keys - todo, k);
      assert files.Keys - todo + {k} == files.Keys - (todo - {k});
      order, todo := order + [k], todo - {k};
    }
    assert files.Keys - todo == files.Keys;
  }

  lemma NoLines(lines: seq<string>, dirs: Dirs, files: Files)
    ensures lines + DirLines(dirs, []) == lines == lines + FileLines(files, [])
    ensures Lists([], dirs.Keys - dirs.Keys) && Lists([], files.Keys - files.Keys) && Text(lines) + "" == Text(lines)
  {
  }

  /** Printing the index; the lines come in the order in which the loops visit the keys. */
  method PrintNamespace(dirs: Dirs, files: Files) returns (text: string, ghost dirOrder: seq<string>,
      ghost fileOrder: seq<string>)
    ensures Lists(dirOrder, dirs.Keys) && Lists(fileOrder, files.Keys)
    ensures text == PrintIndex(dirs, files, dirOrder, fileOrder)
    ensures Printable(dirs, files) ==>
      forall now: nat :: Load(text, now) == if Named(dirs, files) then Ok(Index(dirs, Visible(files)))
          else Err(IntegrityFailure)
  {
    hide Text, DirLines, FileLines, Distinct, Load, Printable, Named;
    TextAppend([], HEADER_V2);
    EmptyText();
    var part;
    part, dirOrder := PrintDirs(dirs, [HEADER_V2]);
    text := HEADER_V2 + "\n" + part;
    part, fileOrder := PrintFiles(files, [HEADER_V2] + DirLines(dirs, dirOrder));
    text := text + part;
    assert text == PrintIndex(dirs, files, dirOrder, fileOrder);
    if Printable(dirs, files) {
      forall now: nat ensures Load(text, now) == if Named(dirs, files) then Ok(Index(dirs, Visible(files)))
          else Err(IntegrityFailure) {
        LoadsWhatWasWritten(EMPTY.(dirs := dirs, files := files), dirOrder, fileOrder, now);
      }
    }
  }

  lemma EmptyText()
    ensures Text([]) == "" && [] + [HEADER_V2] == [HEADER_V2]
  {
  }

  /** Reading the index line by line, stopping at the first bad one. */
  method LoadNamespace(text: string, now: nat) returns (r: Result<Index, StorageError>)
    ensures r == Load(text, now)
  {
    hide LoadLine, Lines;
    var lines := Lines(text);
    if lines == [] || (lines[0] != HEADER_V2 && lines[0] != HEADER_V1) { return Err(IntegrityFailure); }
    var fallback := if lines[0] == HEADER_V2 then None else Some(AllTimes(now));
    var i, n := NOTHING, 1;
    while n < |lines|
      invariant 1 <= n <= |lines|
      invariant LoadLines(i, lines[n..], fallback) == LoadLines(NOTHING, lines[1..], fallback)
    {
      assert lines[n..][0] == lines[n] && lines[n..][1..] == lines[n + 1..];
      var step := LoadLine(i, lines[n], fallback);
      if step.Err? { return step; }
      i, n := step.value, n + 1;
    }
    r := Ok(i);
  }
}
