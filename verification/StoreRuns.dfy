/** Whole runs of the store: staging, splicing, flushes and recoveries in any order, each flush
    and recovery stopped after any number of filesystem calls, over any number of files. */
module StoreRuns {
  import opened Wire
  import opened StorageFormat
  import opened CommitStore
  import opened Publish
  import opened CrashSafety
  import opened Recovery

  const USIZE_MAX: nat := U64 - 1

  datatype Store = Store(back: Backing, staged: map<Bytes, Bytes>, nextGeneration: nat)

  // ----- staged edits -----

  function Zeros(n: nat): (z: Bytes)
    ensures |z| == n && forall i :: 0 <= i < n ==> z[i] == 0
  {
    seq(n, _ => 0)
  }

  function Resize(data: Bytes, length: nat): (r: Bytes)
    ensures |r| == length
  {
    if length <= |data| then data[..length] else data + Zeros(length - |data|)
  }

  /** Overwrites `bytes` at `offset`, extending with zeros when the write ends past the end. */
  function Splice(data: Bytes, offset: nat, bytes: Bytes): (r: Bytes)
    ensures |r| == (if offset + |bytes| > |data| then offset + |bytes| else |data|)
    ensures forall i :: 0 <= i < |r| ==>
      r[i] == if offset <= i < offset + |bytes| then bytes[i - offset] else if i < |data| then data[i] else 0
  {
    var end := offset + |bytes|;
    var base := if end > |data| then Resize(data, end) else data;
    base[..offset] + bytes + base[end..]
  }

  /** What an edit starts from: the staged bytes, else the readable content, else nothing. */
  function EditBase(s: Store, file: Bytes): Bytes {
    if file in s.staged then s.staged[file]
    else match Read(s.back, file) case Ok(data) => data case Err(_) => []
  }

  function WriteAtStep(s: Store, file: Bytes, offset: nat, bytes: Bytes): (Store, Result<(), StorageError>) {
    var base := EditBase(s, file);
    if offset + |bytes| > USIZE_MAX
    then (s.(staged := s.staged[file := base]), Err(IoFailure))
    else (s.(staged := s.staged[file := Splice(base, offset, bytes)]), Ok(()))
  }

  function TruncateStep(s: Store, file: Bytes, length: nat): Store {
    s.(staged := s.staged[file := Resize(EditBase(s, file), length)])
  }

  // ----- flush and recovery, stopped after `stop` filesystem calls -----

  function DraftOf(s: Store, file: Bytes): Draft
    requires file in s.staged
  {
    Draft(s.back.store, file, s.nextGeneration, s.staged[file])
  }

  function FlushStep(s: Store, file: Bytes, tape: seq<Seal>, stop: nat): (Store, Result<nat, StorageError>)
    requires file in s.staged ==> |tape| == Parts(DraftOf(s, file))
  {
    if file !in s.staged then (s, Err(NotFound)) else
    var w := DraftOf(s, file);
    var total := |FlushOps(s.back.disk, w, tape)|;
    var back := FlushedBy(s.back, w, tape, Min(stop, total));
    var next := Store(back, s.staged, s.nextGeneration + 1);
    if stop < total then (next, Err(IoFailure))
    else if AcceptedFrom(tape, 0) < Parts(w) then (next, Err(IntegrityFailure))
    else (next.(staged := s.staged - {file}), Ok(w.generation))
  }

  function RecoverStep(s: Store, file: Bytes, order: seq<Path>, stop: nat): (Store, Result<Report, StorageError>) {
    match Plan(s.back, file)
    case Err(e) => (s, Err(e))
    case Ok(report) =>
      var total := |RecoverOps(file, report, order)|;
      var next := s.(back := RecoveredBy(s.back, file, report, order, Min(stop, total)));
      (next, if stop < total then Err(IoFailure) else Ok(report))
  }

  // ----- runs -----

  datatype Event =
    | Stage(file: Bytes, data: Bytes)
    | WriteAt(file: Bytes, offset: nat, bytes: Bytes)
    | Truncate(file: Bytes, length: nat)
    | Flush(file: Bytes, tape: seq<Seal>, stop: nat)
    | Recover(file: Bytes, order: seq<Path>, stop: nat)
    | SealIndex(file: Bytes, generation: nat, seal: Seal, text: Bytes)
    | Reopen

  const NAMESPACE_FILE: Bytes := Ascii("namespace-index")
  const NAMESPACE_PREFIX: Bytes := Ascii("dlp-namespace/")

  /** The namespace index is sealed under the same key, as a manifest record of its own file name. */
  function IndexRecord(store: Bytes, generation: nat, seal: Seal, text: Bytes): Record {
    Record(Header(FORMAT_VERSION_V1, store, NAMESPACE_FILE, generation, Manifest, 0, |text|), seal.nonce,
        seal.ciphertext)
  }

  /** What the environment guarantees: valid identifiers, an ideal cipher, generation numbers that
      fit a u64, data that fits in memory, and directory listings that are complete. */
  ghost predicate Legal(s: Store, e: Event) {
    match e
    case Flush(file, tape, _) =>
      file in s.staged ==> ValidDraft(DraftOf(s, file)) && ValidTape(DraftOf(s, file), s.back.log, tape)
    case Recover(file, order, _) =>
      Plan(s.back, file).Ok? ==> Enumerates(order, Doomed(s.back, file, Plan(s.back, file).value.generation))
    case SealIndex(file, generation, seal, text) =>
      && file == NAMESPACE_FILE && NAMESPACE_PREFIX <= text
      && var r := IndexRecord(s.back.store, generation, seal, text); r in s.back.log ==> s.back.log[r] == text
    case _ => true
  }

  function Next(s: Store, e: Event): Store
    requires e.Flush? && e.file in s.staged ==> |e.tape| == Parts(DraftOf(s, e.file))
  {
    match e
    case Stage(file, data) => s.(staged := s.staged[file := data])
    case WriteAt(file, offset, bytes) => WriteAtStep(s, file, offset, bytes).0
    case Truncate(file, length) => TruncateStep(s, file, length)
    case Flush(file, tape, stop) => FlushStep(s, file, tape, stop).0
    case Recover(file, order, stop) => RecoverStep(s, file, order, stop).0
    case SealIndex(_, generation, seal, text) =>
      s.(back := s.back.(log := s.back.log[IndexRecord(s.back.store, generation, seal, text) := text]))
    case Reopen => s.(staged := map[])
  }

  /** The data an event publishes, if it gets as far as the publishing rename. */
  function Publishes(s: Store, e: Event, file: Bytes): Option<Bytes>
    requires e.Flush? && e.file in s.staged ==> |e.tape| == Parts(DraftOf(s, e.file))
  {
    if e.Flush? && e.file == file && file in s.staged
       && Published(s.back.disk, DraftOf(s, file), e.tape,
           Min(e.stop, |FlushOps(s.back.disk, DraftOf(s, file), e.tape)|))
    then Some(s.staged[file])
    else None
  }

  ghost predicate LegalRun(s: Store, events: seq<Event>)
    decreases |events|
  {
    events == [] || (Legal(s, events[0]) && LegalRun(Next(s, events[0]), events[1..]))
  }

  ghost function After(s: Store, events: seq<Event>): Store
    requires LegalRun(s, events)
    decreases |events|
  {
    if events == [] then s else After(Next(s, events[0]), events[1..])
  }

  /** The content last published to `file` during the run, starting from `before`. */
  ghost function LastPublished(s: Store, events: seq<Event>, file: Bytes, before: Option<Bytes>): Option<Bytes>
    requires LegalRun(s, events)
    decreases |events|
  {
    if events == [] then before
    else
      var now := Publishes(s, events[0], file);
      LastPublished(Next(s, events[0]), events[1..], file, if now.Some? then now else before)
  }

  // ----- the invariant -----

  predicate OlderThan(b: Backing, file: Bytes, p: Path, n: nat) {
    match CommitGeneration(b, file, p) case Ok(g) => g < n case Err(_) => true
  }

  /** Both pointers are readable when present and name generations already used. */
  predicate FileGood(b: Backing, file: Bytes, n: nat) {
    && Sound(b, file)
    && OlderThan(b, file, Selected(file), n)
    && OlderThan(b, file, Previous(file), n)
  }

  ghost predicate Good(s: Store) {
    forall file: Bytes :: FileGood(s.back, file, s.nextGeneration)
  }

  // ----- one file's operations do not concern another -----

  function Touched(op: Op): set<Bytes> {
    match op
    case Write(p, _) => {p.file}
    case Copy(p, q) => {p.file, q.file}
    case Remove(p) => {p.file}
    case Rename(p, q) => {p.file, q.file}
  }

  lemma {:induction false} RunElsewhere(d: Disk, ops: seq<Op>, file: Bytes)
    requires forall i :: 0 <= i < |ops| ==> Touched(ops[i]) == {file}
    ensures forall p: Path :: p.file != file ==> SameAt(d, p, Run(d, ops), p)
  {
    if ops != [] {
      RunElsewhere(d, ops[..|ops| - 1], file);
      assert Touched(ops[|ops| - 1]) == {file};
    }
  }

  ghost predicate SameLogFor(log: Log, log': Log, file: Bytes) {
    forall r: Record :: r.header.fileId == file ==> (r in log <==> r in log') && (r in log ==> log[r] == log'[r])
  }

  ghost predicate SameFile(a: Backing, b: Backing, file: Bytes) {
    && a.store == b.store
    && SameLogFor(a.log, b.log, file)
    && forall p: Path :: p.file == file ==> SameAt(a.disk, p, b.disk, p)
  }

  lemma ReadPartLocal(a: Backing, b: Backing, file: Bytes, p: Path, kind: RecordKind, index: nat)
    requires SameFile(a, b, file) && p.file == file
    ensures ReadPart(a, file, p, kind, index) == ReadPart(b, file, p, kind, index)
  {
  }

  lemma {:induction false} ReadChunksLocal(a: Backing, b: Backing, file: Bytes, g: nat, lengths: seq<nat>, i: nat,
      nonces: set<Bytes>)
    requires SameFile(a, b, file) && i <= |lengths|
    ensures ReadChunks(a, file, g, lengths, i, nonces) == ReadChunks(b, file, g, lengths, i, nonces)
    decreases |lengths| - i
  {
    if i < |lengths| {
      assert ReadChunk(a, file, g, lengths[i], i, nonces) == ReadChunk(b, file, g, lengths[i], i, nonces);
      match ReadChunk(a, file, g, lengths[i], i, nonces) {
        case Err(_) =>
        case Ok(part) => ReadChunksLocal(a, b, file, g, lengths, i + 1, nonces + {part.0.nonce});
      }
    }
  }

  /** Reading depends only on the file's own paths and on what was sealed for it. */
  lemma ReadPointerLocal(a: Backing, b: Backing, file: Bytes, p: Path)
    requires SameFile(a, b, file) && p.file == file
    ensures ReadPointer(a, file, p) == ReadPointer(b, file, p)
    ensures CommitGeneration(a, file, p) == CommitGeneration(b, file, p)
  {
    ReadPartLocal(a, b, file, p, Commit, 0);
    assert ReadCommit(a, file, p) == ReadCommit(b, file, p);
    if ReadCommit(a, file, p).Ok? {
      var (r, commit) := ReadCommit(a, file, p).value;
      ReadPartLocal(a, b, file, PartPath(file, commit.generation, CommitRec), Commit, 0);
      ReadPartLocal(a, b, file, PartPath(file, commit.generation, ManifestRec), Manifest, 0);
      assert CheckCommitted(a, file, commit) == CheckCommitted(b, file, commit);
      assert ReadManifest(a, file, commit.generation) == ReadManifest(b, file, commit.generation);
      if ReadManifest(a, file, commit.generation).Ok? {
        var (m, manifest) := ReadManifest(a, file, commit.generation).value;
        ReadChunksLocal(a, b, file, commit.generation, manifest.chunkLengths, 0, {r.nonce, m.nonce});
      }
    }
  }

  lemma {:induction false} SealPartsLocal(w: Draft, log: Log, tape: seq<Seal>, count: nat, file: Bytes)
    requires count <= Parts(w) == |tape| && w.file != file
    ensures SameLogFor(log, SealParts(w, log, tape, count), file)
  {
    if count != 0 { SealPartsLocal(w, log, tape, count - 1, file); }
  }

  lemma FlushOpsTouch(d: Disk, w: Draft, tape: seq<Seal>)
    requires |tape| == Parts(w)
    ensures forall i :: 0 <= i < |FlushOps(d, w, tape)| ==> Touched(FlushOps(d, w, tape)[i]) == {w.file}
  {
  }

  lemma FlushElsewhere(b: Backing, w: Draft, tape: seq<Seal>, k: nat, file: Bytes)
    requires |tape| == Parts(w) && k <= |FlushOps(b.disk, w, tape)| && file != w.file
    ensures SameFile(b, FlushedBy(b, w, tape, k), file)
  {
    FlushOpsTouch(b.disk, w, tape);
    RunElsewhere(b.disk, FlushOps(b.disk, w, tape)[..k], w.file);
    SealPartsLocal(w, b.log, tape, SealedBy(tape, k), file);
  }

  lemma RecoverElsewhere(b: Backing, owner: Bytes, report: Report, order: seq<Path>, k: nat, file: Bytes)
    requires k <= |RecoverOps(owner, report, order)| && file != owner
    requires forall i :: 0 <= i < |order| ==> order[i].file == owner
    ensures SameFile(b, RecoveredBy(b, owner, report, order, k), file)
  {
    RunElsewhere(b.disk, RecoverOps(owner, report, order)[..k], owner);
  }

  /** No event of one file changes what another file reads, whatever the read returns. */
  lemma OtherFilesUnaffected(s: Store, e: Event, file: Bytes)
    requires Legal(s, e) && (e.Reopen? || e.file != file)
    ensures SameFile(s.back, Next(s, e).back, file)
    ensures Read(Next(s, e).back, file) == Read(s.back, file)
  {
    match e {
      case Flush(owner, tape, stop) =>
        if owner in s.staged {
          var w := DraftOf(s, owner);
          FlushElsewhere(s.back, w, tape, Min(stop, |FlushOps(s.back.disk, w, tape)|), file);
        }
      case Recover(owner, order, stop) =>
        if Plan(s.back, owner).Ok? {
          var report := Plan(s.back, owner).value;
          RecoverElsewhere(s.back, owner, report, order, Min(stop, |RecoverOps(owner, report, order)|), file);
        }
      case _ =>
    }
    ReadPointerLocal(s.back, Next(s, e).back, file, Selected(file));
  }

  // ----- every step keeps the store good -----

  lemma FlushedFileGood(b: Backing, w: Draft, tape: seq<Seal>, k: nat)
    requires b.store == w.store && ValidDraft(w) && ValidTape(w, b.log, tape)
    requires k <= |FlushOps(b.disk, w, tape)| && FileGood(b, w.file, w.generation)
    ensures FileGood(FlushedBy(b, w, tape, k), w.file, w.generation + 1)
  {
    SoundDuringFlush(b, w, tape, k);
    if Selected(w.file) in FlushedBy(b, w, tape, k).disk { SelectedDuringFlush(b, w, tape, k); }
    if Previous(w.file) in FlushedBy(b, w, tape, k).disk { PreviousDuringFlush(b, w, tape, k); }
  }

  lemma FlushKeepsFileGood(s: Store, e: Event)
    requires e.Flush? && Legal(s, e) && FileGood(s.back, e.file, s.nextGeneration)
    ensures var t := Next(s, e);
      && FileGood(t.back, e.file, t.nextGeneration)
      && Committed(t.back, e.file) == (var now := Publishes(s, e, e.file);
          if now.Some? then now else Committed(s.back, e.file))
  {
    if e.file in s.staged {
      var w := DraftOf(s, e.file);
      var k := Min(e.stop, |FlushOps(s.back.disk, w, e.tape)|);
      FlushedFileGood(s.back, w, e.tape, k);
      CommittedDuringFlush(s.back, w, e.tape, k);
    }
  }

  lemma RecoverKeepsFileGood(s: Store, e: Event)
    requires e.Recover? && Legal(s, e) && FileGood(s.back, e.file, s.nextGeneration)
    ensures var t := Next(s, e);
      FileGood(t.back, e.file, t.nextGeneration) && Committed(t.back, e.file) == Committed(s.back, e.file)
  {
    if Plan(s.back, e.file).Ok? {
      var report := Plan(s.back, e.file).value;
      var k := Min(e.stop, |RecoverOps(e.file, report, e.order)|);
      PlanSettles(s.back, e.file);
      RecoveryIsSafe(s.back, e.file, e.order, k);
      RecoveredPrevious(s.back, e.file, report, e.order, k);
      RecoveredSelected(s.back, e.file, report, e.order, k);
    }
  }

  /** Sealing an index only adds to what opens, so every readable pointer reads as before. */
  lemma SealIndexKeepsFileGood(s: Store, e: Event, file: Bytes)
    requires e.SealIndex? && Legal(s, e) && FileGood(s.back, file, s.nextGeneration)
    ensures FileGood(Next(s, e).back, file, s.nextGeneration)
    ensures Committed(Next(s, e).back, file) == Committed(s.back, file)
  {
    var b, c := s.back, Next(s, e).back;
    if Selected(file) in b.disk { ReadPointerFrame(b, c, file, Selected(file), Selected(file)); }
    if Previous(file) in b.disk { ReadPointerFrame(b, c, file, Previous(file), Previous(file)); }
  }

  lemma ElsewhereKeepsFileGood(s: Store, e: Event, file: Bytes)
    requires Legal(s, e) && FileGood(s.back, file, s.nextGeneration) && (e.Reopen? || e.file != file)
    ensures FileGood(Next(s, e).back, file, Next(s, e).nextGeneration)
    ensures Committed(Next(s, e).back, file) == Committed(s.back, file)
  {
    OtherFilesUnaffected(s, e, file);
    var t := Next(s, e);
    assert t.nextGeneration >= s.nextGeneration;
    ReadPointerLocal(s.back, t.back, file, Selected(file));
    ReadPointerLocal(s.back, t.back, file, Previous(file));
  }

  lemma StepKeepsFileGood(s: Store, e: Event, file: Bytes)
    requires Legal(s, e) && FileGood(s.back, file, s.nextGeneration)
    ensures var t := Next(s, e);
      && FileGood(t.back, file, t.nextGeneration)
      && Committed(t.back, file) == (var now := Publishes(s, e, file);
          if now.Some? then now else Committed(s.back, file))
  {
    if e.Reopen? || e.file != file {
      ElsewhereKeepsFileGood(s, e, file);
    } else if e.Flush? {
      FlushKeepsFileGood(s, e);
    } else if e.Recover? {
      RecoverKeepsFileGood(s, e);
    } else if e.SealIndex? {
      SealIndexKeepsFileGood(s, e, file);
    }
  }

  /** Whole-run safety: from a good store, every legal run ends in a good store in which each
      file's committed content is the one last published to it. */
  lemma {:induction false} RunsAreSafe(s: Store, events: seq<Event>, file: Bytes)
    requires LegalRun(s, events) && Good(s)
    ensures Good(After(s, events))
    ensures Committed(After(s, events).back, file) == LastPublished(s, events, file, Committed(s.back, file))
    decreases |events|
  {
    if events != [] {
      var t := Next(s, events[0]);
      forall f: Bytes ensures FileGood(t.back, f, t.nextGeneration) {
        StepKeepsFileGood(s, events[0], f);
      }
      StepKeepsFileGood(s, events[0], file);
      RunsAreSafe(t, events[1..], file);
    }
  }

  /** In a good store `read` is the committed content whenever the selected pointer exists. */
  lemma ReadIsCommitted(s: Store, file: Bytes)
    requires FileGood(s.back, file, s.nextGeneration)
    ensures Read(s.back, file) ==
      if Selected(file) in s.back.disk then Ok(Committed(s.back, file).value) else Err(NotFound)
  {
  }

  /** After any run, a recovery that is not interrupted makes `read` return what was last published,
      or reports `RecoveryRequired` when nothing ever was. */
  lemma RecoveryAfterAnyRun(s: Store, events: seq<Event>, file: Bytes, order: seq<Path>, stop: nat)
    requires LegalRun(s, events) && Good(s)
    requires Legal(After(s, events), Recover(file, order, stop))
    requires RecoverStep(After(s, events), file, order, stop).1 != Err(IoFailure)
    ensures var (t, result) := RecoverStep(After(s, events), file, order, stop);
      match LastPublished(s, events, file, Committed(s.back, file))
      case None => result == Err(RecoveryRequired)
      case Some(data) => result.Ok? && Read(t.back, file) == Ok(data)
  {
    hide After, LastPublished, LegalRun, Read, Plan, Committed;
    RunsAreSafe(s, events, file);
    var u := After(s, events);
    assert FileGood(u.back, file, u.nextGeneration);
    RecoveryRequiredExactly(u.back, file);
    if Plan(u.back, file).Ok? {
      RecoveryCompletes(u.back, file, order);
    }
  }

  // ----- file I/O refines a byte array -----

  /** A plain file: its flushed bytes, and the bytes edited since. */
  datatype Plain = Plain(flushed: Option<Bytes>, pending: Option<Bytes>) {
    function Current(): Bytes {
      if pending.Some? then pending.value else if flushed.Some? then flushed.value else []
    }
  }

  function PlainNext(p: Plain, e: Event, file: Bytes): Plain {
    match e
    case Reopen => p.(pending := None)
    case _ =>
      if e.file != file then p else
      match e
      case Stage(_, data) => p.(pending := Some(data))
      case WriteAt(_, offset, bytes) => p.(pending := Some(Splice(p.Current(), offset, bytes)))
      case Truncate(_, length) => p.(pending := Some(Resize(p.Current(), length)))
      case Flush(_, _, _) => if p.pending.Some? then Plain(p.pending, None) else p
      case _ => p
  }

  ghost function PlainAfter(p: Plain, events: seq<Event>, file: Bytes): Plain
    decreases |events|
  {
    if events == [] then p else PlainAfter(PlainNext(p, events[0], file), events[1..], file)
  }

  /** The event's own call on `file`, if it makes one, succeeds. */
  predicate Succeeds(s: Store, e: Event, file: Bytes)
    requires e.Flush? && e.file in s.staged ==> |e.tape| == Parts(DraftOf(s, e.file))
  {
    match e
    case WriteAt(f, offset, bytes) => f == file ==> WriteAtStep(s, f, offset, bytes).1.Ok?
    case Flush(f, tape, stop) => f == file && f in s.staged ==> FlushStep(s, f, tape, stop).1.Ok?
    case _ => true
  }

  ghost predicate SuccessfulRun(s: Store, events: seq<Event>, file: Bytes)
    requires LegalRun(s, events)
    decreases |events|
  {
    events == [] || (Succeeds(s, events[0], file) && SuccessfulRun(Next(s, events[0]), events[1..], file))
  }

  /** The store shows the plain file: reads see the flushed bytes, the stage holds the edits. */
  ghost predicate Shows(s: Store, file: Bytes, p: Plain) {
    && FileGood(s.back, file, s.nextGeneration)
    && Committed(s.back, file) == p.flushed
    && (Selected(file) in s.back.disk <==> p.flushed.Some?)
    && (file in s.staged <==> p.pending.Some?)
    && (file in s.staged ==> s.staged[file] == p.pending.value)
  }

  lemma FlushSelects(s: Store, e: Event)
    requires e.Flush? && Legal(s, e) && e.file in s.staged && FlushStep(s, e.file, e.tape, e.stop).1.Ok?
    ensures Selected(e.file) in Next(s, e).back.disk
    ensures Publishes(s, e, e.file) == Some(s.staged[e.file])
  {
    var w := DraftOf(s, e.file);
    FlushSlots(s.back, w, e.tape, |FlushOps(s.back.disk, w, e.tape)|);
  }

  lemma RecoverSelects(s: Store, e: Event)
    requires e.Recover? && Legal(s, e) && FileGood(s.back, e.file, s.nextGeneration)
    requires Selected(e.file) in s.back.disk || Committed(s.back, e.file).None?
    ensures Selected(e.file) in Next(s, e).back.disk <==> Selected(e.file) in s.back.disk
  {
    if Plan(s.back, e.file).Ok? {
      var report := Plan(s.back, e.file).value;
      PlanSettles(s.back, e.file);
      RecoveredSelected(s.back, e.file, report, e.order, Min(e.stop, |RecoverOps(e.file, report, e.order)|));
    }
  }

  lemma StepShows(s: Store, e: Event, file: Bytes, p: Plain)
    requires Legal(s, e) && Succeeds(s, e, file) && Shows(s, file, p)
    ensures Shows(Next(s, e), file, PlainNext(p, e, file))
  {
    hide FileGood, Committed, Read;
    if e.Reopen? || e.file != file {
      StepKeepsFileGood(s, e, file);
      OtherFilesUnaffected(s, e, file);
    } else {
      OwnStepShows(s, e, p);
    }
  }

  lemma OwnStepShows(s: Store, e: Event, p: Plain)
    requires !e.Reopen? && Legal(s, e) && Succeeds(s, e, e.file) && Shows(s, e.file, p)
    ensures Shows(Next(s, e), e.file, PlainNext(p, e, e.file))
  {
    hide FileGood, Committed, Read;
    StepKeepsFileGood(s, e, e.file);
    ReadIsCommitted(s, e.file);
    if e.Flush? && e.file in s.staged {
      FlushSelects(s, e);
    } else if e.Recover? {
      RecoverSelects(s, e);
    }
  }

  /** Any run whose calls on `file` succeed leaves the store showing exactly the plain file that the
      same splices, truncations and flushes give, through chunking, sealing and reassembly. */
  lemma {:induction false} FileIoRefinesByteArray(s: Store, events: seq<Event>, file: Bytes, p: Plain)
    requires LegalRun(s, events) && SuccessfulRun(s, events, file) && Shows(s, file, p)
    ensures Shows(After(s, events), file, PlainAfter(p, events, file))
    ensures Read(After(s, events).back, file) ==
      match PlainAfter(p, events, file).flushed case Some(data) => Ok(data) case None => Err(NotFound)
    decreases |events|
  {
    if events == [] {
      ReadIsCommitted(s, file);
    } else {
      StepShows(s, events[0], file, p);
      FileIoRefinesByteArray(Next(s, events[0]), events[1..], file, PlainNext(p, events[0], file));
    }
  }
}
