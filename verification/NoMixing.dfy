/** Whatever the backing disk holds, a read that succeeds returns the bytes staged for one single
    generation of that file in that store: records of different generations, files, kinds or
    positions never combine. */
module NoMixing {
  import opened Wire
  import opened StorageFormat
  import opened CommitStore
  import opened Publish
  import opened Recovery
  import opened StoreRuns

  datatype Origin = Origin(store: Bytes, file: Bytes, generation: nat)

  /** The data each generation was flushed with. Being a map, it says that a (store, file,
      generation) triple is flushed at most once. */
  type History = map<Origin, Bytes>

  function OriginOf(h: Header): Origin {
    Origin(h.storeId, h.fileId, h.generation)
  }

  function DraftAt(history: History, o: Origin): Draft
    requires o in history
  {
    Draft(o.store, o.file, o.generation, history[o])
  }

  /** The record was sealed as one part of a flushed generation. */
  ghost predicate SealedAsPart(r: Record, plain: Bytes, history: History) {
    && OriginOf(r.header) in history
    && var w := DraftAt(history, OriginOf(r.header));
      exists j :: 0 <= j < Parts(w) && r.header == PartHeader(w, j) && plain == PartPlain(w, j)
  }

  /** The record was sealed as a namespace index, which shares the key and the record format. */
  predicate SealedAsIndex(r: Record, plain: Bytes) {
    r.header.fileId == NAMESPACE_FILE && r.header.kind == Manifest && NAMESPACE_PREFIX <= plain
  }

  /** This draft is what the history records for its generation. */
  predicate DraftIn(w: Draft, history: History) {
    var o := Origin(w.store, w.file, w.generation);
    o in history && history[o] == w.data
  }

  ghost predicate LogFrom(log: Log, history: History) {
    && (forall o :: o in history ==> ValidDraft(DraftAt(history, o)))
    && (forall r :: r in log ==> SealedAsPart(r, log[r], history) || SealedAsIndex(r, log[r]))
  }

  /** An index text is never mistaken for a file manifest, even for a file of the same name. */
  lemma IndexIsNoManifest(plain: Bytes)
    requires NAMESPACE_PREFIX <= plain
    ensures DecodeManifest(plain).Err?
  {
    if |plain| >= |MANIFEST_PREFIX| {
      assert plain[4] == NAMESPACE_PREFIX[4] == 110;
      assert MANIFEST_PREFIX[4] == FORMAT_ID_V1[4] == 115;
    }
  }

  lemma OversizedSizesRejected(m: ManifestData)
    requires m.logicalLength < U64 && MAX_CHUNKS < |m.chunkLengths| < U32
    ensures TakeSizes(SizesThen(m)) == NoParse
  {
    hide Le, TakeLe, LengthsBytes, TakeLengths, Pow256;
    Widths();
    TakeLeAppend(|m.chunkLengths|, 4, LengthsBytes(m.chunkLengths));
    TakeLeAppend(m.logicalLength, 8, CountedBytes(m.chunkLengths));
  }

  lemma OversizedManifestRejected(m: ManifestData)
    requires m.generation < U64 && ValidId(m.fileId) && m.logicalLength < U64
    requires MAX_CHUNKS < |m.chunkLengths| < U32
    ensures DecodeManifest(ManifestBytes(m)).Err?
  {
    hide Le, Take, TakeLe, TakeText16, TakeSizes, Text16Then, SizesThen, Pow256;
    Widths();
    OversizedSizesRejected(m);
    TakeAppend(MANIFEST_PREFIX, Le(m.generation, 8) + Text16Then(m.fileId, SizesThen(m)));
    TakeLeAppend(m.generation, 8, Text16Then(m.fileId, SizesThen(m)));
    TakeText16Append(m.fileId, SizesThen(m));
  }

  lemma CommitFromHistory(b: Backing, file: Bytes, p: Path, history: History)
    requires LogFrom(b.log, history) && ReadCommit(b, file, p).Ok?
    ensures var g := ReadCommit(b, file, p).value.1.generation; Origin(b.store, file, g) in history
  {
    var (r, plain) := ReadPart(b, file, p, Commit, 0).value;
    assert SealedAsPart(r, plain, history);
    DecodeEncodeCommit(CommitOf(DraftAt(history, OriginOf(r.header))));
  }

  lemma ManifestPlainFromHistory(b: Backing, file: Bytes, g: nat, history: History)
    requires LogFrom(b.log, history) && ReadManifest(b, file, g).Ok?
    requires Origin(b.store, file, g) in history
    ensures ReadPart(b, file, PartPath(file, g, ManifestRec), Manifest, 0).value.1
      == ManifestBytes(ManifestOf(DraftAt(history, Origin(b.store, file, g))))
  {
    var (r, plain) := ReadPart(b, file, PartPath(file, g, ManifestRec), Manifest, 0).value;
    if !SealedAsPart(r, plain, history) {
      IndexIsNoManifest(plain);
    }
  }

  lemma ManifestDecodesToItself(w: Draft)
    requires ValidDraft(w) && DecodeManifest(ManifestBytes(ManifestOf(w))).Ok?
    ensures DecodeManifest(ManifestBytes(ManifestOf(w))) == Ok(ManifestOf(w))
  {
    hide DecodeManifest, ManifestBytes;
    var m := ManifestOf(w);
    if |m.chunkLengths| > MAX_CHUNKS {
      OversizedManifestRejected(m);
    } else {
      DecodeEncodeManifest(m);
    }
  }

  lemma ManifestFromHistory(b: Backing, file: Bytes, g: nat, history: History)
    requires LogFrom(b.log, history) && ReadManifest(b, file, g).Ok?
    requires Origin(b.store, file, g) in history
    ensures ReadManifest(b, file, g).value.1 == ManifestOf(DraftAt(history, Origin(b.store, file, g)))
  {
    ManifestPlainFromHistory(b, file, g, history);
    ManifestDecodesToItself(DraftAt(history, Origin(b.store, file, g)));
  }

  lemma ChunkFromHistory(b: Backing, w: Draft, i: nat, nonces: set<Bytes>, history: History)
    requires LogFrom(b.log, history) && b.store == w.store && DraftIn(w, history) && i < |Chunks(w.data)|
    requires ReadChunk(b, w.file, w.generation, Lengths(w.data)[i], i, nonces).Ok?
    ensures ReadChunk(b, w.file, w.generation, Lengths(w.data)[i], i, nonces).value.1 == Chunks(w.data)[i]
  {
    var (r, plain) := ReadChunk(b, w.file, w.generation, Lengths(w.data)[i], i, nonces).value;
    assert SealedAsPart(r, plain, history);
  }

  lemma {:induction false} ChunksFromHistory(b: Backing, w: Draft, i: nat, nonces: set<Bytes>, history: History)
    requires LogFrom(b.log, history) && b.store == w.store && DraftIn(w, history) && i <= |Chunks(w.data)|
    requires ReadChunks(b, w.file, w.generation, Lengths(w.data), i, nonces).Ok?
    ensures ReadChunks(b, w.file, w.generation, Lengths(w.data), i, nonces).value == Concat(Chunks(w.data)[i..])
    decreases |Chunks(w.data)| - i
  {
    hide LogFrom, DraftIn, ReadChunk, Chunks;
    var chunks := Chunks(w.data);
    if i < |chunks| {
      ChunkFromHistory(b, w, i, nonces, history);
      var (r, _) := ReadChunk(b, w.file, w.generation, Lengths(w.data)[i], i, nonces).value;
      ChunksFromHistory(b, w, i + 1, nonces + {r.nonce}, history);
      assert chunks[i..][1..] == chunks[i + 1..];
    }
  }

  /** No mixed generations, for any disk at all. */
  lemma ReadsOneGeneration(b: Backing, file: Bytes, p: Path, history: History)
    requires LogFrom(b.log, history) && ReadPointer(b, file, p).Ok?
    ensures var g := CommitGeneration(b, file, p).value;
      Origin(b.store, file, g) in history && ReadPointer(b, file, p) == Ok(history[Origin(b.store, file, g)])
  {
    CommitFromHistory(b, file, p, history);
    var (r, commit) := ReadCommit(b, file, p).value;
    var w := DraftAt(history, Origin(b.store, file, commit.generation));
    ManifestFromHistory(b, file, commit.generation, history);
    var (mr, m) := ReadManifest(b, file, commit.generation).value;
    ChunksFromHistory(b, w, 0, {r.nonce, mr.nonce}, history);
    ConcatChunks(w.data);
    assert Chunks(w.data)[0..] == Chunks(w.data);
  }

  // ----- the log of every run has this form -----

  function Recorded(s: Store, e: Event, history: History): History {
    if e.Flush? && e.file in s.staged
    then history[Origin(s.back.store, e.file, s.nextGeneration) := s.staged[e.file]]
    else history
  }

  ghost function HistoryAfter(s: Store, events: seq<Event>, history: History): History
    requires LegalRun(s, events)
    decreases |events|
  {
    if events == [] then history
    else HistoryAfter(Next(s, events[0]), events[1..], Recorded(s, events[0], history))
  }

  /** The counter is ahead of every generation recorded for this store. */
  ghost predicate CounterAhead(s: Store, history: History) {
    forall o :: o in history && o.store == s.back.store ==> o.generation < s.nextGeneration
  }

  lemma {:induction false} SealPartsFrom(w: Draft, log: Log, tape: seq<Seal>, count: nat, history: History)
    requires LogFrom(log, history) && ValidDraft(w) && |tape| == Parts(w) && count <= Parts(w)
    requires DraftIn(w, history)
    ensures LogFrom(SealParts(w, log, tape, count), history)
  {
    if count != 0 {
      SealPartsFrom(w, log, tape, count - 1, history);
      assert SealedAsPart(PartRecord(w, tape, count - 1), PartPlain(w, count - 1), history);
    }
  }

  lemma NewOriginKeepsLog(log: Log, history: History, o: Origin, data: Bytes)
    requires LogFrom(log, history) && o !in history && ValidDraft(Draft(o.store, o.file, o.generation, data))
    ensures LogFrom(log, history[o := data])
  {
    var history' := history[o := data];
    forall r | r in log ensures SealedAsPart(r, log[r], history') || SealedAsIndex(r, log[r]) {
      if SealedAsPart(r, log[r], history) {
        assert DraftAt(history', OriginOf(r.header)) == DraftAt(history, OriginOf(r.header));
      }
    }
  }

  lemma StepKeepsLogFrom(s: Store, e: Event, history: History)
    requires Legal(s, e) && LogFrom(s.back.log, history) && CounterAhead(s, history)
    ensures LogFrom(Next(s, e).back.log, Recorded(s, e, history))
    ensures CounterAhead(Next(s, e), Recorded(s, e, history))
  {
    if e.Flush? && e.file in s.staged {
      var w := DraftOf(s, e.file);
      var o := Origin(s.back.store, e.file, s.nextGeneration);
      NewOriginKeepsLog(s.back.log, history, o, w.data);
      var k := Min(e.stop, |FlushOps(s.back.disk, w, e.tape)|);
      SealPartsFrom(w, s.back.log, e.tape, SealedBy(e.tape, k), history[o := w.data]);
    }
  }

  /** End to end: after any run, and after any replacement of the backing disk, a successful read
      yields the bytes that some flush of the run (or of the past) staged for this very file. */
  lemma {:induction false} TamperedDiskReadsOneGeneration(
    s: Store, events: seq<Event>, history: History, disk: Disk, file: Bytes)
    requires LegalRun(s, events) && LogFrom(s.back.log, history) && CounterAhead(s, history)
    requires Read(After(s, events).back.(disk := disk), file).Ok?
    ensures exists g ::
      var o := Origin(After(s, events).back.store, file, g);
      o in HistoryAfter(s, events, history)
      && Read(After(s, events).back.(disk := disk), file) == Ok(HistoryAfter(s, events, history)[o])
    decreases |events|
  {
    if events == [] {
      ReadsOneGeneration(s.back.(disk := disk), file, Selected(file), history);
    } else {
      StepKeepsLogFrom(s, events[0], history);
      TamperedDiskReadsOneGeneration(Next(s, events[0]), events[1..], Recorded(s, events[0], history), disk, file);
    }
  }
}
