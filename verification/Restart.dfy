/** What a process restart does: its counters start again at 1, and both freshness conditions can fail. */
module Restart {
  import opened Wire
  import opened StorageFormat
  import opened CommitStore
  import opened Publish
  import opened CrashSafety
  import opened StoreRuns
  import opened FlushProgress
  import N = Namespace
  import D = Drive

  /** The backing store after a first, complete flush of `data` into an empty store. */
  function FirstFlush(w: Draft): Backing {
    var b := Backing(w.store, map[], map[]);
    var tape := CountingTape(w, 0);
    FlushedBy(b, w, tape, |FlushOps(b.disk, w, tape)|)
  }

  lemma FirstFlushHolds(w: Draft)
    requires ValidDraft(w) && ManifestFits(w)
    ensures var b := FirstFlush(w);
            && b.store == w.store && Sound(b, w.file)
            && Pointer(b.disk, w.file) == Selected(w.file) && Selected(w.file) in b.disk && CommittedSound(b, w.file)
            && Read(b, w.file) == Ok(w.data) && Committed(b, w.file) == Some(w.data)
            && CommitGeneration(b, w.file, Selected(w.file)) == Ok(w.generation)
  {
    hide FlushOps, ManifestFits, ReadPointer, CommitGeneration, ValidTape, Installed;
    var b0 := Backing(w.store, map[], map[]);
    var tape := CountingTape(w, 0);
    var k := |FlushOps(b0.disk, w, tape)|;
    CountingTapeIsValid(w, map[], 0);
    AllAcceptedExactly(w, map[], tape);
    FirstFlushInstalled(w, tape, k);
  }

  lemma FirstFlushInstalled(w: Draft, tape: seq<Seal>, k: nat)
    requires ValidDraft(w) && ValidTape(w, map[], tape) && AcceptedFrom(tape, 0) == Parts(w)
    requires k == |FlushOps(map[], w, tape)|
    ensures var b := FlushedBy(Backing(w.store, map[], map[]), w, tape, k);
            && Selected(w.file) in b.disk && Previous(w.file) !in b.disk
            && ReadPointer(b, w.file, Selected(w.file)) == Ok(w.data)
            && CommitGeneration(b, w.file, Selected(w.file)) == Ok(w.generation)
  {
    var b0 := Backing(w.store, map[], map[]);
    FlushSlots(b0, w, tape, k);
    AcceptedAll(w, map[], tape);
    InstalledReads(FlushedBy(b0, w, tape, k), w, tape, Selected(w.file));
  }

  /** Everything in the log after sealing was there before or is one of the parts. */
  lemma {:induction false} SealedRecords(w: Draft, log: Log, tape: seq<Seal>, count: nat, r: Record)
    requires count <= Parts(w) == |tape| && r in SealParts(w, log, tape, count) && r !in log
    ensures exists j :: 0 <= j < count && r == PartRecord(w, tape, j)
  {
    if r != PartRecord(w, tape, count - 1) { SealedRecords(w, log, tape, count - 1, r); }
  }

  lemma FirstFlushNonces(w: Draft)
    requires ValidDraft(w)
    ensures UnusedFrom(FirstFlush(w).log, U64)
  {
    hide Chunks, Le, ManifestBytes;
    var tape := CountingTape(w, 0);
    PartsFewerThanNonces(w);
    forall r <- FirstFlush(w).log, j: nat | U64 <= j < U64 + U64 ensures r.nonce != Le(j, NONCE_LENGTH) {
      var count := SealedBy(tape, |FlushOps(map[], w, tape)|);
      SealedRecords(w, map[], tape, count, r);
      var i :| 0 <= i < count && r == PartRecord(w, tape, i);
      assert r.nonce == Le(0 + i, NONCE_LENGTH);
      NoncesDiffer(i, j);
    }
  }

  /**
   * A store in which the committed generation is the next one: content flushed with generation `g`, then a restart
   * that gives out `g` again. Flushing other content then has a stopping point, before anything is published, at
   * which the file no longer holds its committed content.
   */
  lemma RestartLosesContent(store: Bytes, file: Bytes, g: nat, data: Bytes, other: Bytes)
    requires data != other
    requires ValidDraft(Draft(store, file, g, data)) && ManifestFits(Draft(store, file, g, data))
    requires ValidDraft(Draft(store, file, g, other)) && ManifestFits(Draft(store, file, g, other))
    ensures var b, w := FirstFlush(Draft(store, file, g, data)), Draft(store, file, g, other);
            var tape := CountingTape(w, U64);
            var k := 1 + Parts(w);
            && Committed(b, file) == Some(data)
            && CommitGeneration(b, file, Pointer(b.disk, file)) == Ok(w.generation)
            && ValidTape(w, b.log, tape)
            && k <= |FlushOps(b.disk, w, tape)| && !Published(b.disk, w, tape, k)
            && Committed(FlushedBy(b, w, tape, k), file) != Some(data)
  {
    hide FlushOps, FlushedBy, ManifestFits, ValidTape, CountingTape, Committed, CommitGeneration, FirstFlush, Published;
    var first, w := Draft(store, file, g, data), Draft(store, file, g, other);
    var b, tape := FirstFlush(first), CountingTape(w, U64);
    FirstFlushHolds(first);
    FirstFlushNonces(first);
    CountingTapeIsValid(w, b.log, U64);
    AllAcceptedExactly(w, b.log, tape);
    ReusedGenerationLosesContent(b, w, tape);
  }

  /** With the id counter set back to a file that was flushed before, a newly created file shows that file's content. */
  lemma RestartShowsOldContent(store: Bytes, ns: N.Ns, data: Bytes, path: N.VPath, now: nat)
    requires path.key !in ns.files && N.HasParent(ns.dirs, path.key)
    requires ValidDraft(Draft(store, D.FileBytes(ns.nextFile), 1, data))
        && ManifestFits(Draft(store, D.FileBytes(ns.nextFile), 1, data))
    ensures var d := D.Drive(ns, Store(FirstFlush(Draft(store, D.FileBytes(ns.nextFile), 1, data)), map[], 1));
            var c := D.Name(N.CreateOrOpenCall(path, true, true, now, N.Written));
            D.Creates(d, c) && D.Legal(d, c) && D.PathRead(D.Next(d, c), path.key) == Ok(data)
  {
    hide ManifestFits, FirstFlush;
    var w := Draft(store, D.FileBytes(ns.nextFile), 1, data);
    FirstFlushHolds(w);
    var d := D.Drive(ns, Store(FirstFlush(w), map[], 1));
    D.NewFileShowsNothingExactly(d, D.Name(N.CreateOrOpenCall(path, true, true, now, N.Written)));
  }
}
