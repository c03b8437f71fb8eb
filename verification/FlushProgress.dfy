/** When a flush gets through: the only content limit is that the manifest fits one record. */
module FlushProgress {
  import opened Wire
  import opened StorageFormat
  import opened CommitStore
  import opened Publish
  import opened CrashSafety
  import opened Recovery
  import opened StoreRuns

  predicate ManifestFits(w: Draft) {
    |ManifestBytes(ManifestOf(w))| + TAG_LENGTH <= MAX_CIPHERTEXT
  }

  lemma CommitFits(w: Draft)
    requires ValidDraft(w)
    ensures |CommitBytes(CommitOf(w))| + TAG_LENGTH <= MAX_CIPHERTEXT
  {
  }

  lemma PartFits(w: Draft, j: nat)
    requires ValidDraft(w) && j < Parts(w) && j != |Chunks(w.data)|
    ensures |PartPlain(w, j)| + TAG_LENGTH <= MAX_CIPHERTEXT
  {
    hide ManifestBytes, CommitBytes, Chunks;
    CommitFits(w);
  }

  /** With fresh nonces every part is accepted exactly when the manifest's record fits. */
  lemma AllAcceptedExactly(w: Draft, log: Log, tape: seq<Seal>)
    requires ValidDraft(w) && ValidTape(w, log, tape) && DistinctNonces(tape)
    ensures AcceptedFrom(tape, 0) == Parts(w) <==> ManifestFits(w)
  {
    hide ManifestBytes, CommitBytes, Chunks;
    var n := |Chunks(w.data)|;
    forall j | 0 <= j < |tape| && j != n ensures Accepted(tape, j) { PartFits(w, j); }
    assert tape[n] == tape[n] && PartPlain(w, n) == ManifestBytes(ManifestOf(w));
    assert Accepted(tape, n) <==> ManifestFits(w);
  }

  /**
   * A flush that meets no input or output failure and no repeated nonce succeeds exactly when its manifest fits one
   * record.
   */
  lemma FlushSucceedsExactly(s: Store, file: Bytes, tape: seq<Seal>, stop: nat)
    requires file in s.staged && ValidDraft(DraftOf(s, file))
    requires ValidTape(DraftOf(s, file), s.back.log, tape) && DistinctNonces(tape)
    requires stop >= |FlushOps(s.back.disk, DraftOf(s, file), tape)|
    ensures FlushStep(s, file, tape, stop).1
            == if ManifestFits(DraftOf(s, file)) then Ok(s.nextGeneration) else Err(IntegrityFailure)
  {
    hide FlushOps, FlushedBy, ManifestFits;
    AllAcceptedExactly(DraftOf(s, file), s.back.log, tape);
  }

  /** Nonces that count up from `start`, and ciphertexts of the right length. */
  function CountingTape(w: Draft, start: nat): seq<Seal> {
    seq(Parts(w), j requires 0 <= j < Parts(w) =>
      Seal(Le(start + j, NONCE_LENGTH), Zeros(|PartPlain(w, j)| + TAG_LENGTH)))
  }

  /** The log holds no record with any of these nonces. */
  ghost predicate UnusedFrom(log: Log, start: nat) {
    forall r <- log :: forall j: nat :: start <= j < start + U64 ==> r.nonce != Le(j, NONCE_LENGTH)
  }

  lemma CountingTapeIsValid(w: Draft, log: Log, start: nat)
    requires ValidDraft(w) && start <= U64 && UnusedFrom(log, start)
    ensures ValidTape(w, log, CountingTape(w, start)) && DistinctNonces(CountingTape(w, start))
  {
    hide Chunks, PartPlain, Le, ManifestBytes;
    var tape := CountingTape(w, start);
    PartsFewerThanNonces(w);
    forall i, j | 0 <= i < j < |tape| ensures tape[i].nonce != tape[j].nonce {
      NoncesDiffer(start + i, start + j);
    }
    forall j | 0 <= j < |tape| ensures PartRecord(w, tape, j) !in log {
      assert tape[j].nonce == Le(start + j, NONCE_LENGTH);
    }
  }

  lemma NoncesDiffer(a: nat, b: nat)
    requires a < b < 3 * U64
    ensures Le(a, NONCE_LENGTH) != Le(b, NONCE_LENGTH)
  {
    hide Le;
    ManyNonces();
    LeValueOfLe(a, NONCE_LENGTH);
    LeValueOfLe(b, NONCE_LENGTH);
  }

  lemma ManyNonces()
    ensures 3 * U64 <= Pow256(NONCE_LENGTH)
  {
    Widths();
    assert Pow256(12) == 256 * Pow256(11) && Pow256(11) == 256 * Pow256(10);
    assert Pow256(10) == 256 * Pow256(9) && Pow256(9) == 256 * Pow256(8);
  }

  lemma PartsFewerThanNonces(w: Draft)
    requires ValidDraft(w)
    ensures Parts(w) < U64
  {
  }

  lemma EmptyStoreIsGood(s: Store)
    requires s.back.disk == map[]
    ensures Good(s)
  {
  }

  /**
   * In a good store such a flush makes the staged bytes readable when the manifest fits, and leaves reads alone when it
   * does not.
   */
  lemma FlushedIsReadable(s: Store, file: Bytes, tape: seq<Seal>, stop: nat)
    requires Good(s) && file in s.staged && ValidDraft(DraftOf(s, file))
    requires ValidTape(DraftOf(s, file), s.back.log, tape) && DistinctNonces(tape)
    requires stop >= |FlushOps(s.back.disk, DraftOf(s, file), tape)|
    ensures var t := FlushStep(s, file, tape, stop).0;
            Read(t.back, file) == if ManifestFits(DraftOf(s, file)) then Ok(s.staged[file]) else Read(s.back, file)
  {
    hide FlushOps, FlushStep, ValidTape, ManifestFits, FileGood, Committed, Read, Publishes;
    var e := Flush(file, tape, stop);
    TapeHasParts(DraftOf(s, file), s.back.log, tape);
    FlushSucceedsExactly(s, file, tape, stop);
    StepKeepsFileGood(s, e, file);
    ReadIsCommitted(Next(s, e), file);
    if ManifestFits(DraftOf(s, file)) { FlushSelects(s, e); } else { UnpublishedKeepsRead(s, file, tape, stop); }
  }

  lemma TapeHasParts(w: Draft, log: Log, tape: seq<Seal>)
    requires ValidTape(w, log, tape)
    ensures |tape| == Parts(w)
  {
  }

  /** A flush that stops at an oversized manifest leaves reads alone. */
  lemma UnpublishedKeepsRead(s: Store, file: Bytes, tape: seq<Seal>, stop: nat)
    requires Good(s) && file in s.staged && ValidDraft(DraftOf(s, file)) && !ManifestFits(DraftOf(s, file))
    requires ValidTape(DraftOf(s, file), s.back.log, tape) && DistinctNonces(tape)
    ensures Read(FlushStep(s, file, tape, stop).0.back, file) == Read(s.back, file)
  {
    hide FlushedBy, ManifestFits, Good, FileGood, Read, ReadPointer, CommitGeneration;
    var w := DraftOf(s, file);
    AllAcceptedExactly(w, s.back.log, tape);
    GoodFile(s, file);
    var k := Min(stop, |FlushOps(s.back.disk, w, tape)|);
    UnswappedKeepsRead(s.back, w, tape, k);
  }

  lemma GoodFile(s: Store, file: Bytes)
    requires Good(s)
    ensures Sound(s.back, file) && Unreferenced(s.back, file, s.nextGeneration)
  {
    assert FileGood(s.back, file, s.nextGeneration);
  }

  lemma UnswappedKeepsRead(b: Backing, w: Draft, tape: seq<Seal>, k: nat)
    requires b.store == w.store && ValidTape(w, b.log, tape) && k <= |FlushOps(b.disk, w, tape)|
    requires AcceptedFrom(tape, 0) < Parts(w) && Sound(b, w.file) && Unreferenced(b, w.file, w.generation)
    ensures Read(FlushedBy(b, w, tape, k), w.file) == Read(b, w.file)
  {
    var e := FlushedBy(b, w, tape, k);
    FlushSlots(b, w, tape, k);
    if Selected(w.file) in b.disk {
      CarryPointer(b, e, w.file, w.generation, Selected(w.file), Selected(w.file));
    }
  }

  /** From an empty store, flushing any content whose manifest fits makes it readable, so publishing flushes exist. */
  lemma FirstFlushIsReadable(store: Bytes, file: Bytes, generation: nat, data: Bytes, stop: nat)
    requires ValidDraft(Draft(store, file, generation, data)) && ManifestFits(Draft(store, file, generation, data))
    requires stop >= |FlushOps(map[], Draft(store, file, generation, data),
        CountingTape(Draft(store, file, generation, data), 0))|
    ensures var s := Store(Backing(store, map[], map[]), map[file := data], generation);
            var tape := CountingTape(Draft(store, file, generation, data), 0);
            Good(s) && ValidTape(DraftOf(s, file), s.back.log, tape)
                && Read(FlushStep(s, file, tape, stop).0.back, file) == Ok(data)
  {
    hide FlushOps, FlushStep, ValidTape, CountingTape, ManifestFits, Good, Read, ValidDraft;
    var w := Draft(store, file, generation, data);
    var s := Store(Backing(store, map[], map[]), map[file := data], generation);
    assert DraftOf(s, file) == w;
    CountingTapeIsValid(w, map[], 0);
    EmptyStoreIsGood(s);
    FlushedIsReadable(s, file, CountingTape(w, 0), stop);
  }
}
