/**
 * Namespace and content together: handles and paths lead to file ids, ids to the encrypted store. Calls through
 * handles and paths run with namespace calls, recoveries and reopenings in any order.
 */
module Drive {
  import opened Wire
  import opened StorageFormat
  import opened CommitStore
  import opened Publish
  import opened Recovery
  import opened FileView
  import N = Namespace
  import NS = NamespaceSafety
  import S = StoreRuns
  import D = Desk
  import F = FlushProgress
  import Decimal

  datatype Drive = Drive(ns: N.Ns, store: S.Store)

  /** The store's name for a file id; ids are ASCII. */
  function StoreId(id: string): Bytes {
    if forall i :: 0 <= i < |id| ==> id[i] < 128 as char then Ascii(id) else []
  }

  /** The store's name of the `n`-th file. */
  function FileBytes(n: nat): Bytes {
    StoreId(N.FileIdOf(n))
  }

  datatype Call =
    | Name(e: N.Event)
    | WriteHandle(h: nat, offset: nat, bytes: Bytes, now: nat)
    | TruncateHandle(h: nat, length: nat, now: nat)
    | FlushHandle(h: nat, tape: seq<Seal>, stop: nat, now: nat, p: N.Persist)
    | ReadHandle(h: nat, now: nat)
    | ReadPath(key: string, now: nat)
    | RecoverFile(file: Bytes, order: seq<Path>, stop: nat)
    | SealIndex(generation: nat, seal: Seal, text: Bytes)
    | Reopen

  /** Calls on the namespace alone. */
  predicate IsNaming(e: N.Event) {
    e.CreateDirectoryCall? || e.CreateOrOpenCall? || e.CloseHandleCall? || e.RenameCall? || e.DeleteCall?
  }

  /** What a path shows. */
  function PathRead(d: Drive, key: string): Result<Bytes, StorageError> {
    if key in View(d.ns) then Read(d.store.back, StoreId(View(d.ns)[key])) else Err(NotFound)
  }

  /** What an open handle shows. */
  function HandleRead(d: Drive, h: nat): Result<Bytes, StorageError> {
    match FileOfHandle(d.ns, h) case Err(e) => Err(e) case Ok(id) => Read(d.store.back, StoreId(id))
  }

  /** The content side of a call: it concerns the file its handle leads to, or none. */
  function StoreEvent(d: Drive, c: Call): Option<S.Event> {
    match c
    case WriteHandle(h, offset, bytes, _) => OnFile(d, h, id => S.WriteAt(StoreId(id), offset, bytes))
    case TruncateHandle(h, length, _) => OnFile(d, h, id => S.Truncate(StoreId(id), length))
    case FlushHandle(h, tape, stop, _, _) => OnFile(d, h, id => S.Flush(StoreId(id), tape, stop))
    case RecoverFile(file, order, stop) => Some(S.Recover(file, order, stop))
    case SealIndex(generation, seal, text) => Some(S.SealIndex(S.NAMESPACE_FILE, generation, seal, text))
    case Reopen => Some(S.Reopen)
    case _ => None
  }

  function OnFile(d: Drive, h: nat, event: string -> S.Event): Option<S.Event> {
    match FileOfHandle(d.ns, h) case Err(_) => None case Ok(id) => Some(event(id))
  }

  ghost predicate Legal(d: Drive, c: Call) {
    match c
    case Name(e) => IsNaming(e)
    case ReadHandle(_, _) => true
    case ReadPath(_, _) => true
    case _ => match StoreEvent(d, c) case None => true case Some(e) => S.Legal(d.store, e)
  }

  /** Whether the content side of a call succeeds. */
  ghost predicate ContentDone(d: Drive, c: Call)
    requires Legal(d, c)
  {
    match StoreEvent(d, c)
    case Some(WriteAt(file, offset, bytes)) => S.WriteAtStep(d.store, file, offset, bytes).1.Ok?
    case Some(Flush(file, tape, stop)) => file in d.store.staged ==> S.FlushStep(d.store, file, tape, stop).1.Ok?
    case _ =>
      match c
      case ReadHandle(h, _) => HandleRead(d, h).Ok?
      case ReadPath(key, _) => PathRead(d, key).Ok?
      case _ => true
  }

  predicate Staged(d: Drive, h: nat) {
    match FileOfHandle(d.ns, h) case Err(_) => false case Ok(id) => StoreId(id) in d.store.staged
  }

  /** The namespace side of a call: times are stamped once the content side is done. */
  ghost function NameEvent(d: Drive, c: Call): Option<N.Event>
    requires Legal(d, c)
  {
    match c
    case Name(e) => Some(e)
    case WriteHandle(h, _, _, now) => Some(N.UseHandleCall(h, true, ContentDone(d, c), now))
    case TruncateHandle(h, _, now) => Some(N.UseHandleCall(h, true, true, now))
    case FlushHandle(h, _, _, now, p) => Some(N.FlushHandleCall(h, Staged(d, h), ContentDone(d, c), now, p))
    case ReadHandle(h, now) => Some(N.UseHandleCall(h, false, ContentDone(d, c), now))
    case ReadPath(key, now) => Some(N.ReadPathCall(key, ContentDone(d, c), now))
    case Reopen => Some(N.Reopen)
    case _ => None
  }

  ghost function Next(d: Drive, c: Call): Drive
    requires Legal(d, c)
  {
    Drive(
      match NameEvent(d, c) case None => d.ns case Some(e) => N.Next(d.ns, e),
      match StoreEvent(d, c) case None => d.store case Some(e) => S.Next(d.store, e))
  }

  ghost predicate LegalRun(d: Drive, calls: seq<Call>)
    decreases |calls|
  {
    calls == [] || (Legal(d, calls[0]) && LegalRun(Next(d, calls[0]), calls[1..]))
  }

  ghost function After(d: Drive, calls: seq<Call>): Drive
    requires LegalRun(d, calls)
    decreases |calls|
  {
    if calls == [] then d else After(Next(d, calls[0]), calls[1..])
  }

  // ----- the invariant -----

  /** Nothing is stored or staged for the file. */
  predicate Blank(s: S.Store, file: Bytes) {
    file !in s.staged && Selected(file) !in s.back.disk && Previous(file) !in s.back.disk
  }

  ghost predicate Inv(d: Drive) {
    && NS.Inv(d.ns)
    && D.DeskInv(D.DeskOf(d.ns))
    && S.Good(d.store)
    && forall n: nat :: d.ns.nextFile <= n ==> Blank(d.store, FileBytes(n))
  }

  lemma FileIdIsAscii(n: nat)
    ensures forall i :: 0 <= i < |N.FileIdOf(n)| ==> N.FileIdOf(n)[i] < 128 as char
  {
    var id, digits := N.FileIdOf(n), Decimal.Padded(n, 20);
    assert "file-"[0] == 'f' && "file-"[1] == 'i' && "file-"[2] == 'l' && "file-"[3] == 'e' && "file-"[4] == '-';
    forall i | 0 <= i < |id| ensures id[i] < 128 as char {
      if i < 5 { assert id[i] == "file-"[i]; } else { assert id[i] == digits[i - 5] && Decimal.IsDigit(digits[i - 5]); }
    }
  }

  lemma FileBytesDiffer(a: nat, b: nat)
    requires FileBytes(a) == FileBytes(b)
    ensures a == b
  {
    FileIdIsAscii(a);
    FileIdIsAscii(b);
    var x, y := N.FileIdOf(a), N.FileIdOf(b);
    assert |x| == |y|;
    forall i | 0 <= i < |x| ensures x[i] == y[i] { assert Ascii(x)[i] == Ascii(y)[i]; }
    assert x == y;
    if a != b { NS.FileIdsDiffer(a, b); }
  }

  /** Issued ids have the same store name only if they are the same id. */
  lemma IssuedDiffer(id: string, next: nat, n: nat)
    requires D.Issued(id, next)
    ensures StoreId(id) == FileBytes(n) <==> id == N.FileIdOf(n)
    ensures id == N.FileIdOf(n) ==> n < next
  {
    var m: nat :| m < next && id == N.FileIdOf(m);
    if StoreId(id) == FileBytes(n) { FileBytesDiffer(m, n); }
  }

  lemma HandleIsIssued(d: Drive, h: nat)
    requires Inv(d) && FileOfHandle(d.ns, h).Ok?
    ensures D.Issued(FileOfHandle(d.ns, h).value, d.ns.nextFile)
    ensures h in D.OpenFiles(d.ns) && D.OpenFiles(d.ns)[h] == FileOfHandle(d.ns, h).value
  {
    hide NS.Inv, D.Issued;
  }

  lemma PathIsIssued(d: Drive, key: string)
    requires Inv(d) && key in View(d.ns)
    ensures D.Issued(View(d.ns)[key], d.ns.nextFile)
  {
    hide NS.Inv, D.Issued;
  }

  // ----- every call keeps the invariant -----

  lemma CounterGrows(d: Drive, c: Call)
    requires Legal(d, c) && NS.Inv(d.ns) && D.DeskInv(D.DeskOf(d.ns))
    ensures NS.Inv(Next(d, c).ns) && D.DeskInv(D.DeskOf(Next(d, c).ns)) && d.ns.nextFile <= Next(d, c).ns.nextFile
  {
    hide NS.Inv, D.DeskInv, N.Next, S.Next;
    if NameEvent(d, c).Some? {
      var e := NameEvent(d, c).value;
      NS.StepKeeps(d.ns, e);
      D.StepRefines(d.ns, e);
      D.StepKeepsIssued(D.DeskOf(d.ns), e, D.Succeeded(d.ns, e), D.DeskOf(N.Next(d.ns, e)));
    }
  }

  lemma StoreStaysGood(s: S.Store, e: S.Event)
    requires S.Good(s) && S.Legal(s, e)
    ensures S.Good(S.Next(s, e))
  {
    hide S.FileGood, S.Next, ValidTape, ValidDraft;
    TapeFits(s, e);
    forall f: Bytes ensures S.FileGood(S.Next(s, e).back, f, S.Next(s, e).nextGeneration) {
      S.StepKeepsFileGood(s, e, f);
    }
  }

  lemma TapeFits(s: S.Store, e: S.Event)
    requires S.Legal(s, e)
    ensures e.Flush? && e.file in s.staged ==> |e.tape| == Parts(S.DraftOf(s, e.file))
  {
  }

  /** A store event on another file, or a recovery of the blank file itself, leaves a blank file blank. */
  lemma BlankStays(s: S.Store, e: S.Event, file: Bytes)
    requires S.Good(s) && S.Legal(s, e) && Blank(s, file)
    requires e.Reopen? || e.Recover? || e.SealIndex? || e.file != file
    ensures Blank(S.Next(s, e), file)
  {
    if e.Reopen? || e.file != file {
      S.OtherFilesUnaffected(s, e, file);
    } else if e.Recover? {
      assert S.FileGood(s.back, file, s.nextGeneration);
      RecoveryRequiredExactly(s.back, file);
    }
  }

  lemma EventIsElsewhere(d: Drive, c: Call, n: nat)
    requires Inv(d) && d.ns.nextFile <= n && StoreEvent(d, c).Some?
    ensures var e := StoreEvent(d, c).value; e.Reopen? || e.Recover? || e.SealIndex? || e.file != FileBytes(n)
  {
    hide Inv;
    if c.WriteHandle? || c.TruncateHandle? || c.FlushHandle? {
      HandleIsIssued(d, c.h);
      IssuedDiffer(FileOfHandle(d.ns, c.h).value, d.ns.nextFile, n);
    }
  }

  lemma ContentIsLegal(d: Drive, c: Call)
    requires Legal(d, c)
    ensures StoreEvent(d, c).Some? ==> S.Legal(d.store, StoreEvent(d, c).value)
  {
    hide S.Legal;
  }

  lemma StepKeepsInv(d: Drive, c: Call)
    requires Inv(d) && Legal(d, c)
    ensures Inv(Next(d, c))
  {
    hide NS.Inv, D.DeskInv, S.Good, N.Next, S.Next, S.Legal, Blank, StoreEvent;
    CounterGrows(d, c);
    ContentIsLegal(d, c);
    var t := Next(d, c);
    if StoreEvent(d, c).Some? {
      var e := StoreEvent(d, c).value;
      StoreStaysGood(d.store, e);
      forall n: nat | t.ns.nextFile <= n ensures Blank(t.store, FileBytes(n)) {
        EventIsElsewhere(d, c, n);
        BlankStays(d.store, e, FileBytes(n));
      }
    }
  }

  lemma {:induction false} RunsKeepInv(d: Drive, calls: seq<Call>)
    requires Inv(d) && LegalRun(d, calls)
    ensures Inv(After(d, calls))
    decreases |calls|
  {
    hide Inv, Legal, Next;
    if calls != [] {
      StepKeepsInv(d, calls[0]);
      RunsKeepInv(Next(d, calls[0]), calls[1..]);
    }
  }

  lemma EmptyNamespaceIsGood()
    ensures NS.Inv(N.EMPTY) && D.DeskInv(D.DeskOf(N.EMPTY))
  {
  }

  lemma EmptyDriveIsGood(store: Bytes, log: Log, generation: nat)
    ensures Inv(Drive(N.EMPTY, S.Store(Backing(store, log, map[]), map[], generation)))
  {
    hide NS.Inv, D.DeskInv, D.DeskOf, S.Good;
    EmptyNamespaceIsGood();
    F.EmptyStoreIsGood(S.Store(Backing(store, log, map[]), map[], generation));
  }

  // ----- content refines plain files -----

  /** What a call does to the plain file with this id, given which files are open. */
  function NextPlain(open: map<nat, string>, c: Call, id: string, p: S.Plain): S.Plain {
    match c
    case Reopen => p.(pending := None)
    case WriteHandle(h, offset, bytes, _) =>
      if h in open && open[h] == id then p.(pending := Some(S.Splice(p.Current(), offset, bytes))) else p
    case TruncateHandle(h, length, _) =>
      if h in open && open[h] == id then p.(pending := Some(S.Resize(p.Current(), length))) else p
    case FlushHandle(h, _, _, _, _) =>
      if h in open && open[h] == id && p.pending.Some? then S.Plain(p.pending, None) else p
    case _ => p
  }

  ghost function PlainAfter(d: Drive, calls: seq<Call>, id: string, p: S.Plain): S.Plain
    requires LegalRun(d, calls)
    decreases |calls|
  {
    if calls == [] then p
    else PlainAfter(Next(d, calls[0]), calls[1..], id, NextPlain(D.OpenFiles(d.ns), calls[0], id, p))
  }

  /** The call's own content operation on file `n`, if it makes one, succeeds. */
  ghost predicate Succeeds(d: Drive, c: Call, n: nat)
    requires Legal(d, c)
  {
    match StoreEvent(d, c) case None => true case Some(e) => S.Succeeds(d.store, e, FileBytes(n))
  }

  ghost predicate SuccessfulRun(d: Drive, calls: seq<Call>, n: nat)
    requires LegalRun(d, calls)
    decreases |calls|
  {
    calls == [] || (Succeeds(d, calls[0], n) && SuccessfulRun(Next(d, calls[0]), calls[1..], n))
  }

  /** What readers of a plain file get: its flushed bytes. */
  function Flushed(p: S.Plain): Result<Bytes, StorageError> {
    match p.flushed case Some(data) => Ok(data) case None => Err(NotFound)
  }

  lemma PlainEvent(d: Drive, c: Call, n: nat, p: S.Plain)
    requires Inv(d) && Legal(d, c)
    ensures NextPlain(D.OpenFiles(d.ns), c, N.FileIdOf(n), p)
            == match StoreEvent(d, c) case None => p case Some(e) => S.PlainNext(p, e, FileBytes(n))
  {
    hide Inv, D.OpenFiles;
    if c.WriteHandle? || c.TruncateHandle? || c.FlushHandle? {
      if FileOfHandle(d.ns, c.h).Ok? {
        HandleIsIssued(d, c.h);
        IssuedDiffer(FileOfHandle(d.ns, c.h).value, d.ns.nextFile, n);
      } else {
        ClosedHandle(d, c.h);
      }
    }
  }

  lemma ClosedHandle(d: Drive, h: nat)
    requires FileOfHandle(d.ns, h).Err?
    ensures h !in D.OpenFiles(d.ns)
  {
  }

  lemma StepShows(d: Drive, c: Call, n: nat, p: S.Plain)
    requires Inv(d) && Legal(d, c) && Succeeds(d, c, n) && S.Shows(d.store, FileBytes(n), p)
    ensures S.Shows(Next(d, c).store, FileBytes(n), NextPlain(D.OpenFiles(d.ns), c, N.FileIdOf(n), p))
  {
    hide Inv, S.Shows, S.Legal, S.Succeeds, NextPlain, StoreEvent;
    PlainEvent(d, c, n, p);
    ContentIsLegal(d, c);
    if StoreEvent(d, c).Some? { S.StepShows(d.store, StoreEvent(d, c).value, FileBytes(n), p); }
  }

  /** Paths and handles that lead to a file show its flushed bytes. */
  lemma ReadsShowPlain(d: Drive, n: nat, p: S.Plain)
    requires S.Shows(d.store, FileBytes(n), p)
    ensures Read(d.store.back, FileBytes(n)) == Flushed(p)
    ensures forall k :: k in View(d.ns) && View(d.ns)[k] == N.FileIdOf(n) ==> PathRead(d, k) == Flushed(p)
    ensures forall h: nat :: FileOfHandle(d.ns, h) == Ok(N.FileIdOf(n)) ==> HandleRead(d, h) == Flushed(p)
  {
    S.ReadIsCommitted(d.store, FileBytes(n));
  }

  /**
   * Handle I/O refines byte arrays. Over any run of handle, path and namespace calls in which the content operations
   * on file `n` succeed, the store shows the plain file that the same splices, truncations and flushes give, and
   * every path and every handle that leads to the file shows its flushed bytes, under whatever name or mark.
   */
  lemma {:induction false} HandleIoRefinesByteArray(d: Drive, calls: seq<Call>, n: nat, p: S.Plain)
    requires Inv(d) && LegalRun(d, calls) && SuccessfulRun(d, calls, n) && S.Shows(d.store, FileBytes(n), p)
    ensures var t, q := After(d, calls), PlainAfter(d, calls, N.FileIdOf(n), p);
            && Inv(t)
            && S.Shows(t.store, FileBytes(n), q)
            && (forall k :: k in View(t.ns) && View(t.ns)[k] == N.FileIdOf(n) ==> PathRead(t, k) == Flushed(q))
            && (forall h: nat :: FileOfHandle(t.ns, h) == Ok(N.FileIdOf(n)) ==> HandleRead(t, h) == Flushed(q))
    decreases |calls|
  {
    hide Inv, Legal, Next, Succeeds, S.Shows, NextPlain, PathRead, HandleRead, View;
    if calls == [] {
      ReadsShowPlain(d, n, p);
    } else {
      StepKeepsInv(d, calls[0]);
      StepShows(d, calls[0], n, p);
      var q := NextPlain(D.OpenFiles(d.ns), calls[0], N.FileIdOf(n), p);
      HandleIoRefinesByteArray(Next(d, calls[0]), calls[1..], n, q);
    }
  }

  // ----- calls concern only the file they lead to -----

  /** A call made through handle `h`. */
  predicate Through(c: Call, h: nat) {
    match c
    case WriteHandle(g, _, _, _) => g == h
    case TruncateHandle(g, _, _) => g == h
    case FlushHandle(g, _, _, _, _) => g == h
    case ReadHandle(g, _) => g == h
    case _ => false
  }

  /** Handle calls move neither paths nor handles. */
  lemma HandleCallKeepsDesk(d: Drive, c: Call, h: nat)
    requires NS.Inv(d.ns) && Legal(d, c) && Through(c, h)
    ensures View(Next(d, c).ns) == View(d.ns) && D.OpenFiles(Next(d, c).ns) == D.OpenFiles(d.ns)
  {
    hide NS.Inv, N.Next, S.Next, S.Legal, View, D.OpenFiles;
    D.StepRefines(d.ns, NameEvent(d, c).value);
    D.DeskParts(d.ns);
    D.DeskParts(Next(d, c).ns);
  }

  lemma OpenFileIsHandleFile(s: N.Ns, h: nat)
    ensures FileOfHandle(s, h) == if h in D.OpenFiles(s) then Ok(D.OpenFiles(s)[h]) else Err(NotFound)
  {
  }

  /** The content side of a handle call leaves every other file's reads alone. */
  lemma OtherFileReads(d: Drive, c: Call, h: nat, id: string)
    requires Inv(d) && Legal(d, c) && Through(c, h) && FileOfHandle(d.ns, h) != Ok(id) && D.Issued(id, d.ns.nextFile)
    ensures Read(Next(d, c).store.back, StoreId(id)) == Read(d.store.back, StoreId(id))
  {
    hide Inv, NS.Inv, S.Next, S.Legal, N.Next, Read;
    if StoreEvent(d, c).Some? {
      HandleIsIssued(d, h);
      var n: nat :| n < d.ns.nextFile && id == N.FileIdOf(n);
      IssuedDiffer(FileOfHandle(d.ns, h).value, d.ns.nextFile, n);
      S.OtherFilesUnaffected(d.store, StoreEvent(d, c).value, StoreId(id));
    }
  }

  /** A call through a handle changes what a path shows only if both lead to one file. */
  lemma HandleCallsAreLocal(d: Drive, c: Call, h: nat, key: string)
    requires Inv(d) && Legal(d, c) && Through(c, h)
    requires PathRead(Next(d, c), key) != PathRead(d, key)
    ensures key in View(d.ns) && FileOfHandle(d.ns, h) == Ok(View(d.ns)[key])
  {
    hide Inv, Legal, Next, View, Through;
    InvParts(d);
    HandleCallKeepsDesk(d, c, h);
    if key in View(d.ns) && FileOfHandle(d.ns, h) != Ok(View(d.ns)[key]) {
      PathIsIssued(d, key);
      OtherFileReads(d, c, h, View(d.ns)[key]);
    }
  }

  lemma InvParts(d: Drive)
    requires Inv(d)
    ensures NS.Inv(d.ns) && D.DeskInv(D.DeskOf(d.ns)) && S.Good(d.store)
  {
  }

  /** A call through a handle changes what another handle shows only if both lead to one file. */
  lemma HandlesAreLocal(d: Drive, c: Call, h: nat, g: nat)
    requires Inv(d) && Legal(d, c) && Through(c, h)
    requires HandleRead(Next(d, c), g) != HandleRead(d, g)
    ensures FileOfHandle(d.ns, g).Ok? && FileOfHandle(d.ns, h) == FileOfHandle(d.ns, g)
  {
    hide Inv, Legal, Next, Through, FileOfHandle;
    InvParts(d);
    HandleCallKeepsDesk(d, c, h);
    OpenFileIsHandleFile(d.ns, g);
    OpenFileIsHandleFile(Next(d, c).ns, g);
    if FileOfHandle(d.ns, g).Ok? && FileOfHandle(d.ns, h) != FileOfHandle(d.ns, g) {
      HandleIsIssued(d, g);
      OtherFileReads(d, c, h, FileOfHandle(d.ns, g).value);
    }
  }

  /** Creating, renaming and deleting never change what a handle shows that stays open. */
  lemma NamingKeepsHandleReads(d: Drive, c: Call, h: nat)
    requires Inv(d) && Legal(d, c) && c.Name?
    requires h in D.OpenFiles(d.ns) && h in D.OpenFiles(Next(d, c).ns)
    ensures HandleRead(Next(d, c), h) == HandleRead(d, h)
  {
    hide Inv, NS.Inv, N.Next, FileOfHandle, D.OpenFiles, D.Step, S.Legal, D.DeskOf, D.Succeeded;
    InvParts(d);
    D.StepRefines(d.ns, c.e);
    D.DeskParts(d.ns);
    D.DeskParts(Next(d, c).ns);
    D.StepKeepsOpen(D.DeskOf(d.ns), c.e, D.Succeeded(d.ns, c.e), D.DeskOf(N.Next(d.ns, c.e)), h);
    OpenFileIsHandleFile(d.ns, h);
    OpenFileIsHandleFile(Next(d, c).ns, h);
  }

  // ----- new files -----

  /** The call creates a file. */
  predicate Creates(d: Drive, c: Call) {
    && c.Name? && c.e.CreateOrOpenCall?
    && c.e.path.key !in d.ns.files
    && N.CreateOrOpen(d.ns, c.e.path, c.e.create, c.e.allowDelete, c.e.now, c.e.p).1.Ok?
  }

  lemma CreatedEntry(d: Drive, c: Call)
    requires NS.Inv(d.ns) && Creates(d, c) && Legal(d, c)
    ensures var t := Next(d, c);
            var h := N.CreateOrOpen(d.ns, c.e.path, c.e.create, c.e.allowDelete, c.e.now, c.e.p).1.value;
            && t.store == d.store
            && c.e.path.key in View(t.ns) && View(t.ns)[c.e.path.key] == N.FileIdOf(d.ns.nextFile)
            && FileOfHandle(t.ns, h) == Ok(N.FileIdOf(d.ns.nextFile))
  {
    hide NS.Inv, N.CreateOrOpen, FileOfHandle, View;
    OpenAddsAtMostOne(d.ns, c.e.path, c.e.create, c.e.allowDelete, c.e.now, c.e.p);
  }

  /** A new file shows no earlier content: its plain file is empty, and its path and handle find nothing. */
  lemma NewFileIsEmpty(d: Drive, c: Call)
    requires Inv(d) && Creates(d, c) && Legal(d, c)
    ensures var t := Next(d, c);
            var h := N.CreateOrOpen(d.ns, c.e.path, c.e.create, c.e.allowDelete, c.e.now, c.e.p).1.value;
            && S.Shows(t.store, FileBytes(d.ns.nextFile), S.Plain(None, None))
            && PathRead(t, c.e.path.key) == Err(NotFound)
            && HandleRead(t, h) == Err(NotFound)
  {
    hide NS.Inv, Next, N.CreateOrOpen, View, FileOfHandle, S.Good;
    CreatedEntry(d, c);
    BlankShowsNothing(d.store, FileBytes(d.ns.nextFile));
    ReadsShowPlain(Next(d, c), d.ns.nextFile, S.Plain(None, None));
  }

  lemma BlankShowsNothing(s: S.Store, file: Bytes)
    requires S.Good(s) && Blank(s, file)
    ensures S.Shows(s, file, S.Plain(None, None))
  {
    assert S.FileGood(s.back, file, s.nextGeneration);
  }

  /**
   * From its creation on, over any run in which the content operations on it succeed, a file shows exactly what was
   * written and flushed through handles that led to it, under every path and handle that leads to it.
   */
  lemma CreatedFileHoldsWhatWasWritten(d: Drive, c: Call, calls: seq<Call>)
    requires Inv(d) && Creates(d, c) && Legal(d, c)
    requires LegalRun(Next(d, c), calls) && SuccessfulRun(Next(d, c), calls, d.ns.nextFile)
    ensures var id := N.FileIdOf(d.ns.nextFile);
            var t, q := After(Next(d, c), calls), PlainAfter(Next(d, c), calls, id, S.Plain(None, None));
            && Inv(t)
            && (forall k :: k in View(t.ns) && View(t.ns)[k] == id ==> PathRead(t, k) == Flushed(q))
            && (forall h: nat :: FileOfHandle(t.ns, h) == Ok(id) ==> HandleRead(t, h) == Flushed(q))
  {
    hide Inv, Legal, Next, Creates, LegalRun, SuccessfulRun, After, PlainAfter, S.Shows, View, FileOfHandle,
        PathRead, HandleRead;
    NewFileIsEmpty(d, c);
    StepKeepsInv(d, c);
    HandleIoRefinesByteArray(Next(d, c), calls, d.ns.nextFile, S.Plain(None, None));
  }

  /**
   * Without the invariant, as after a process restart that sets the id counter back: a new file shows no earlier
   * content exactly when the store has no selected pointer under the id it is given.
   */
  lemma NewFileShowsNothingExactly(d: Drive, c: Call)
    requires Creates(d, c) && Legal(d, c) && Sound(d.store.back, FileBytes(d.ns.nextFile))
    ensures PathRead(Next(d, c), c.e.path.key) == Err(NotFound)
            <==> Selected(FileBytes(d.ns.nextFile)) !in d.store.back.disk
    ensures PathRead(Next(d, c), c.e.path.key) == Read(d.store.back, FileBytes(d.ns.nextFile))
  {
    hide NS.Inv, View;
    CreatedPath(d, c);
  }

  lemma CreatedPath(d: Drive, c: Call)
    requires Creates(d, c) && Legal(d, c)
    ensures var t := Next(d, c);
            && t.store == d.store
            && c.e.path.key in View(t.ns) && View(t.ns)[c.e.path.key] == N.FileIdOf(d.ns.nextFile)
  {
  }
}
