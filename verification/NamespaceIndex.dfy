/** The index text: one line per directory and per unmarked file, and the loader that reads it back. */
module NamespaceIndex {
  import opened Wire
  import opened StorageFormat
  import opened Texts
  import opened Namespace
  import opened VirtualPaths
  import Decimal

  const HEADER_V2 := "dlp-namespace/v2"
  const HEADER_V1 := "dlp-namespace/v1"
  const NOTHING := Index(map[], map[])

  function TimeColumns(t: Times): seq<string> {
    [Decimal.Print(t.creation), Decimal.Print(t.access), Decimal.Print(t.write), Decimal.Print(t.change)]
  }

  function DirLine(k: string, e: DirEntry): string {
    Join(["D", k, e.display] + TimeColumns(e.times), '\t')
  }

  function FileLine(k: string, e: FileEntry): string {
    Join(["F", k, e.fileId, e.display] + TimeColumns(e.times), '\t')
  }

  function DirLines(dirs: Dirs, order: seq<string>): seq<string>
    requires forall k <- order :: k in dirs
  {
    if order == [] then [] else [DirLine(order[0], dirs[order[0]])] + DirLines(dirs, order[1..])
  }

  /** Files marked for deletion get no line. */
  function FileLines(files: Files, order: seq<string>): seq<string>
    requires forall k <- order :: k in files
  {
    if order == [] then []
    else
      var rest := FileLines(files, order[1..]);
      if files[order[0]].deletePending then rest else [FileLine(order[0], files[order[0]])] + rest
  }

  /** Each line followed by a newline. */
  function Text(lines: seq<string>): string {
    Join(lines + [""], '\n')
  }

  function PrintIndex(dirs: Dirs, files: Files, dirOrder: seq<string>, fileOrder: seq<string>): string
    requires forall k <- dirOrder :: k in dirs
    requires forall k <- fileOrder :: k in files
  {
    Text([HEADER_V2] + DirLines(dirs, dirOrder) + FileLines(files, fileOrder))
  }

  function StripReturn(line: string): string {
    if line != "" && line[|line| - 1] == '\r' then line[..|line| - 1] else line
  }

  /** Lines end with a newline, optionally after a carriage return; the last newline may be missing. */
  function Lines(text: string): seq<string> {
    var pieces := Split(text, {'\n'});
    var n := |pieces| - 1;
    seq(n, i requires 0 <= i < n => StripReturn(pieces[i])) + (if pieces[n] == "" then [] else [pieces[n]])
  }

  /** File identifiers: 1 to 128 letters, digits, hyphens and underscores. */
  predicate ValidFileId(id: string) {
    0 < |id| <= 128 && forall c <- id :: 'a' <= c <= 'z' || 'A' <= c <= 'Z' || '0' <= c <= '9' || c == '-' || c == '_'
  }

  function ParseTimes(columns: seq<string>): Option<Times>
    requires |columns| == 4
  {
    var creation := Decimal.ParseU64(columns[0]);
    var access := Decimal.ParseU64(columns[1]);
    var write := Decimal.ParseU64(columns[2]);
    var change := Decimal.ParseU64(columns[3]);
    if creation.None? || access.None? || write.None? || change.None? then None
    else Some(Times(creation.value, access.value, write.value, change.value))
  }

  function AddDir(i: Index, key: string, display: string, times: Option<Times>): Result<Index, StorageError> {
    if key == "" || display == "" || times.None? || key in i.dirs then Err(IntegrityFailure)
    else Ok(i.(dirs := i.dirs[key := DirEntry(display, times.value)]))
  }

  function AddFile(i: Index, key: string, id: string, display: string, times: Option<Times>)
    : Result<Index, StorageError>
  {
    if key == "" || display == "" || !ValidFileId(id) || times.None? || key in i.files then Err(IntegrityFailure)
    else Ok(i.(files := i.files[key := FileEntry(id, display, false, times.value)]))
  }

  /** One line of the loader; version 1 lines carry no times and get `fallback`. */
  function LoadLine(i: Index, line: string, fallback: Option<Times>): Result<Index, StorageError> {
    var c := Split(line, {'\t'});
    var times := if fallback.Some? then 0 else 4;
    if |c| == 3 + times && c[0] == "D" then
      AddDir(i, c[1], c[2], if fallback.Some? then fallback else ParseTimes(c[3..]))
    else if |c| == 4 + times && c[0] == "F" then
      AddFile(i, c[1], c[2], c[3], if fallback.Some? then fallback else ParseTimes(c[4..]))
    else Err(IntegrityFailure)
  }

  function LoadLines(i: Index, lines: seq<string>, fallback: Option<Times>): Result<Index, StorageError>
    decreases |lines|
  {
    if lines == [] then Ok(i)
    else var next :- LoadLine(i, lines[0], fallback); LoadLines(next, lines[1..], fallback)
  }

  function Load(text: string, now: nat): Result<Index, StorageError> {
    var lines := Lines(text);
    if lines != [] && lines[0] == HEADER_V2 then LoadLines(NOTHING, lines[1..], None)
    else if lines != [] && lines[0] == HEADER_V1 then LoadLines(NOTHING, lines[1..], Some(AllTimes(now)))
    else Err(IntegrityFailure)
  }

  predicate GoodTimes(t: Times) {
    t.creation < U64 && t.access < U64 && t.write < U64 && t.change < U64
  }

  /** Entries that print to one well-formed line, except that a key or name may be empty. */
  predicate Printable(dirs: Dirs, files: Files) {
    && (forall k <- dirs :: Clean(k) && Clean(dirs[k].display) && GoodTimes(dirs[k].times))
    && (forall k <- files ::
        Clean(k) && Clean(files[k].display) && GoodTimes(files[k].times) && ValidFileId(files[k].fileId))
  }

  predicate Named(dirs: Dirs, files: Files) {
    && (forall k <- dirs :: k != "" && dirs[k].display != "")
    && (forall k <- files :: !files[k].deletePending ==> k != "" && files[k].display != "")
  }

  /** `order` lists every key once. */
  ghost predicate Lists(order: seq<string>, keys: set<string>) {
    (forall k :: k in order <==> k in keys) && Distinct(order)
  }

  lemma DigitsAreFree(n: nat)
    ensures Free(Decimal.Print(n), {'\t'}) && Free(Decimal.Print(n), {'\n'})
  {
    forall c <- Decimal.Print(n) ensures c != '\t' && c != '\n' { assert Decimal.IsDigit(c); }
  }

  lemma TimesRoundTrip(t: Times)
    requires GoodTimes(t)
    ensures ParseTimes(TimeColumns(t)) == Some(t)
  {
    Decimal.ParsePrint(t.creation);
    Decimal.ParsePrint(t.access);
    Decimal.ParsePrint(t.write);
    Decimal.ParsePrint(t.change);
  }

  lemma TimeColumnsAreFree(t: Times)
    ensures forall c <- TimeColumns(t) :: Free(c, {'\t'}) && Free(c, {'\n'})
  {
    DigitsAreFree(t.creation);
    DigitsAreFree(t.access);
    DigitsAreFree(t.write);
    DigitsAreFree(t.change);
  }

  lemma DirLineSplits(k: string, e: DirEntry)
    requires Clean(k) && Clean(e.display)
    ensures Split(DirLine(k, e), {'\t'}) == ["D", k, e.display] + TimeColumns(e.times)
  {
    hide Split, Join, TimeColumns;
    TimeColumnsAreFree(e.times);
    SplitJoin(["D", k, e.display] + TimeColumns(e.times), '\t', {'\t'});
  }

  lemma FileLineSplits(k: string, e: FileEntry)
    requires Clean(k) && Clean(e.display) && ValidFileId(e.fileId)
    ensures Split(FileLine(k, e), {'\t'}) == ["F", k, e.fileId, e.display] + TimeColumns(e.times)
  {
    hide Split, Join, TimeColumns;
    TimeColumnsAreFree(e.times);
    SplitJoin(["F", k, e.fileId, e.display] + TimeColumns(e.times), '\t', {'\t'});
  }

  lemma LoadDirLine(i: Index, k: string, e: DirEntry)
    requires Clean(k) && Clean(e.display) && GoodTimes(e.times) && k !in i.dirs
    ensures LoadLine(i, DirLine(k, e), None)
            == if k == "" || e.display == "" then Err(IntegrityFailure) else Ok(i.(dirs := i.dirs[k := e]))
  {
    hide Split, DirLine, ParseTimes;
    DirLineSplits(k, e);
    TimesRoundTrip(e.times);
    var columns := ["D", k, e.display] + TimeColumns(e.times);
    assert columns[3..] == TimeColumns(e.times);
  }

  lemma LoadFileLine(i: Index, k: string, e: FileEntry)
    requires Clean(k) && Clean(e.display) && GoodTimes(e.times) && ValidFileId(e.fileId) && !e.deletePending
        && k !in i.files
    ensures LoadLine(i, FileLine(k, e), None)
            == if k == "" || e.display == "" then Err(IntegrityFailure) else Ok(i.(files := i.files[k := e]))
  {
    hide Split, FileLine, ParseTimes;
    FileLineSplits(k, e);
    TimesRoundTrip(e.times);
    var columns := ["F", k, e.fileId, e.display] + TimeColumns(e.times);
    assert columns[4..] == TimeColumns(e.times);
  }

  ghost predicate Distinct(order: seq<string>) {
    forall a, b :: 0 <= a < b < |order| ==> order[a] != order[b]
  }

  lemma {:induction false} DistinctTail(order: seq<string>)
    requires Distinct(order) && order != []
    ensures Distinct(order[1..]) && order[0] !in order[1..]
    ensures forall x :: x in order <==> x == order[0] || x in order[1..]
  {
    assert order == [order[0]] + order[1..];
  }

  ghost predicate NamedDirs(dirs: Dirs, order: seq<string>)
    requires forall k <- order :: k in dirs
  {
    forall k <- order :: k != "" && dirs[k].display != ""
  }

  ghost predicate NamedFiles(files: Files, order: seq<string>)
    requires forall k <- order :: k in files
  {
    forall k <- order :: !files[k].deletePending ==> k != "" && files[k].display != ""
  }

  ghost function ListedDirsOf(dirs: Dirs, order: seq<string>): Dirs
    requires forall k <- order :: k in dirs
  {
    map k | k in order :: dirs[k]
  }

  ghost function ListedFilesOf(files: Files, order: seq<string>): Files
    requires forall k <- order :: k in files
  {
    map k | k in order && !files[k].deletePending :: files[k]
  }

  lemma NoDirs(had: Dirs, dirs: Dirs)
    ensures had + ListedDirsOf(dirs, []) == had && NamedDirs(dirs, [])
  {
  }

  lemma FirstDir(had: Dirs, dirs: Dirs, order: seq<string>)
    requires order != [] && Distinct(order) && forall k <- order :: k in dirs
    ensures forall k <- order[1..] :: k in dirs
    ensures var k := order[0];
            && had + ListedDirsOf(dirs, order) == had[k := dirs[k]] + ListedDirsOf(dirs, order[1..])
            && (NamedDirs(dirs, order) <==> k != "" && dirs[k].display != "" && NamedDirs(dirs, order[1..]))
  {
    DistinctTail(order);
  }

  lemma FirstFile(had: Files, files: Files, order: seq<string>)
    requires order != [] && Distinct(order) && (forall k <- order :: k in files) && !files[order[0]].deletePending
    ensures forall k <- order[1..] :: k in files
    ensures var k := order[0];
            && had + ListedFilesOf(files, order) == had[k := files[k]] + ListedFilesOf(files, order[1..])
            && (NamedFiles(files, order) <==> k != "" && files[k].display != "" && NamedFiles(files, order[1..]))
  {
    DistinctTail(order);
  }

  /** Reading the directory lines adds exactly the listed directories, or fails if one has no key or name. */
  lemma {:induction false} LoadDirLines(i: Index, dirs: Dirs, order: seq<string>, rest: seq<string>)
    requires forall k <- order :: k in dirs && k !in i.dirs
    requires Distinct(order) && Printable(dirs, map[])
    ensures LoadLines(i, DirLines(dirs, order) + rest, None)
            == if NamedDirs(dirs, order) then LoadLines(i.(dirs := i.dirs + ListedDirsOf(dirs, order)), rest, None)
               else Err(IntegrityFailure)
    decreases |order|
  {
    hide LoadLine, DirLine, Distinct, ListedDirsOf, NamedDirs;
    var lines := DirLines(dirs, order) + rest;
    if order == [] {
      assert lines == rest;
      NoDirs(i.dirs, dirs);
    } else {
      var k, tail := order[0], order[1..];
      DistinctTail(order);
      FirstDir(i.dirs, dirs, order);
      assert lines[0] == DirLine(k, dirs[k]) && lines[1..] == DirLines(dirs, tail) + rest;
      LoadDirLine(i, k, dirs[k]);
      if k != "" && dirs[k].display != "" {
        var next := i.(dirs := i.dirs[k := dirs[k]]);
        LoadDirLines(next, dirs, tail, rest);
      }
    }
  }

  lemma {:induction false} LoadFileLines(i: Index, files: Files, order: seq<string>)
    requires forall k <- order :: k in files && k !in i.files
    requires Distinct(order) && Printable(map[], files)
    ensures LoadLines(i, FileLines(files, order), None)
            == if NamedFiles(files, order) then Ok(i.(files := i.files + ListedFilesOf(files, order)))
               else Err(IntegrityFailure)
    decreases |order|
  {
    hide LoadLine, FileLine, Distinct;
    if order == [] {
      assert i.files + ListedFilesOf(files, order) == i.files;
    } else {
      var k, tail := order[0], order[1..];
      DistinctTail(order);
      if files[k].deletePending {
        LoadFileLines(i, files, tail);
        assert FileLines(files, order) == FileLines(files, tail);
        assert ListedFilesOf(files, order) == ListedFilesOf(files, tail);
        assert NamedFiles(files, order) <==> NamedFiles(files, tail);
      } else {
        LoadLiveFile(i, files, order);
      }
    }
  }

  lemma {:induction false} LoadLiveFile(i: Index, files: Files, order: seq<string>)
    requires forall k <- order :: k in files && k !in i.files
    requires order != [] && Distinct(order) && Printable(map[], files) && !files[order[0]].deletePending
    ensures LoadLines(i, FileLines(files, order), None)
            == if NamedFiles(files, order) then Ok(i.(files := i.files + ListedFilesOf(files, order)))
               else Err(IntegrityFailure)
    decreases |order|, 0
  {
    hide LoadLine, FileLine, Distinct, ListedFilesOf, NamedFiles;
    var k, tail := order[0], order[1..];
    var lines := FileLines(files, order);
    DistinctTail(order);
    FirstFile(i.files, files, order);
    assert lines[0] == FileLine(k, files[k]) && lines[1..] == FileLines(files, tail);
    LoadFileLine(i, k, files[k]);
    if k != "" && files[k].display != "" {
      var next := i.(files := i.files[k := files[k]]);
      LoadFileLines(next, files, tail);
    }
  }

  predicate PlainLine(line: string) {
    '\n' !in line && (line == "" || line[|line| - 1] != '\r')
  }

  lemma LinesOfText(lines: seq<string>)
    requires forall line <- lines :: PlainLine(line)
    ensures Lines(Text(lines)) == lines
  {
    hide Split, Join;
    forall part <- lines + [""] ensures Free(part, {'\n'}) {}
    SplitJoin(lines + [""], '\n', {'\n'});
    assert forall i :: 0 <= i < |lines| ==> (lines + [""])[i] == lines[i] && lines[i] in lines;
  }

  lemma ColumnsArePlain(columns: seq<string>)
    requires |columns| >= 2 && forall c <- columns :: '\n' !in c
    requires columns[|columns| - 1] != "" && '\r' !in columns[|columns| - 1]
    ensures PlainLine(Join(columns, '\t'))
  {
    hide Join;
    var line := Join(columns, '\t');
    forall c <- line ensures c != '\n' {
      JoinChars(columns, '\t', c);
      if c != '\t' {
        var i :| 0 <= i < |columns| && c in columns[i];
        assert columns[i] in columns;
      }
    }
    JoinInit(columns, '\t');
    var last := columns[|columns| - 1];
    assert line[|line| - 1] == last[|last| - 1];
  }

  lemma DirLineIsPlain(k: string, e: DirEntry)
    requires Clean(k) && Clean(e.display)
    ensures PlainLine(DirLine(k, e))
  {
    hide Join, PlainLine;
    TimeColumnsAreFree(e.times);
    LastColumn(e.times);
    ColumnsArePlain(["D", k, e.display] + TimeColumns(e.times));
  }

  lemma FileLineIsPlain(k: string, e: FileEntry)
    requires Clean(k) && Clean(e.display) && ValidFileId(e.fileId)
    ensures PlainLine(FileLine(k, e))
  {
    hide Join, PlainLine;
    TimeColumnsAreFree(e.times);
    LastColumn(e.times);
    ColumnsArePlain(["F", k, e.fileId, e.display] + TimeColumns(e.times));
  }

  lemma LastColumn(t: Times)
    ensures |TimeColumns(t)| == 4 && TimeColumns(t)[3] != "" && '\r' !in TimeColumns(t)[3]
  {
    forall c <- Decimal.Print(t.change) ensures c != '\r' { assert Decimal.IsDigit(c); }
  }

  lemma {:induction false} DirLinesArePlain(dirs: Dirs, order: seq<string>)
    requires (forall k <- order :: k in dirs) && Printable(dirs, map[])
    ensures forall line <- DirLines(dirs, order) :: PlainLine(line)
  {
    if order != [] {
      assert order[0] in order && forall x <- order[1..] :: x in order;
      DirLineIsPlain(order[0], dirs[order[0]]);
      DirLinesArePlain(dirs, order[1..]);
    }
  }

  lemma {:induction false} FileLinesArePlain(files: Files, order: seq<string>)
    requires (forall k <- order :: k in files) && Printable(map[], files)
    ensures forall line <- FileLines(files, order) :: PlainLine(line)
  {
    if order != [] {
      assert order[0] in order && forall x <- order[1..] :: x in order;
      FileLineIsPlain(order[0], files[order[0]]);
      FileLinesArePlain(files, order[1..]);
    }
  }

  lemma PrintedLines(dirs: Dirs, files: Files, dirOrder: seq<string>, fileOrder: seq<string>)
    requires (forall k <- dirOrder :: k in dirs) && (forall k <- fileOrder :: k in files) && Printable(dirs, files)
    ensures Lines(PrintIndex(dirs, files, dirOrder, fileOrder))
            == [HEADER_V2] + (DirLines(dirs, dirOrder) + FileLines(files, fileOrder))
  {
    hide Lines, Text, PlainLine, DirLines, FileLines;
    DirLinesArePlain(dirs, dirOrder);
    FileLinesArePlain(files, fileOrder);
    HeaderIsPlain();
    LinesOfText([HEADER_V2] + DirLines(dirs, dirOrder) + FileLines(files, fileOrder));
  }

  lemma HeaderIsPlain()
    ensures PlainLine(HEADER_V2)
  {
  }

  lemma EverythingListed(dirs: Dirs, files: Files, dirOrder: seq<string>, fileOrder: seq<string>)
    requires Lists(dirOrder, dirs.Keys) && Lists(fileOrder, files.Keys)
    ensures map[] + ListedDirsOf(dirs, dirOrder) == dirs && map[] + ListedFilesOf(files, fileOrder) == Visible(files)
    ensures Named(dirs, files) <==> NamedDirs(dirs, dirOrder) && NamedFiles(files, fileOrder)
  {
  }

  /**
   * Loading what was written gives back exactly the directories and the unmarked files, in whatever order the
   * lines were printed, if and only if every printed entry has a key and a name.
   */
  lemma LoadsWhatWasWritten(s: Ns, dirOrder: seq<string>, fileOrder: seq<string>, now: nat)
    requires Lists(dirOrder, s.dirs.Keys) && Lists(fileOrder, s.files.Keys) && Printable(s.dirs, s.files)
    ensures Load(PrintIndex(s.dirs, s.files, dirOrder, fileOrder), now)
            == if Named(s.dirs, s.files) then Ok(IndexOf(s)) else Err(IntegrityFailure)
  {
    hide Lines, PrintIndex, LoadLines, DirLines, FileLines, Printable, ListedDirsOf, ListedFilesOf, Visible, Named,
        NamedDirs, NamedFiles;
    PrintablePart(s.dirs, s.files);
    var lines := DirLines(s.dirs, dirOrder) + FileLines(s.files, fileOrder);
    PrintedLines(s.dirs, s.files, dirOrder, fileOrder);
    assert ([HEADER_V2] + lines)[1..] == lines;
    LoadDirLines(NOTHING, s.dirs, dirOrder, FileLines(s.files, fileOrder));
    var withDirs := NOTHING.(dirs := NOTHING.dirs + ListedDirsOf(s.dirs, dirOrder));
    LoadFileLines(withDirs, s.files, fileOrder);
    EverythingListed(s.dirs, s.files, dirOrder, fileOrder);
  }

  lemma PrintablePart(dirs: Dirs, files: Files)
    requires Printable(dirs, files)
    ensures Printable(dirs, map[]) && Printable(map[], files)
  {
  }
}
