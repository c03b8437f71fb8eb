/** Crash atomicity of a flush: at every stopping point the committed content is the old one
    until the publishing rename and the new one from then on. */
module CrashSafety {
  import opened Wire
  import opened StorageFormat
  import opened CommitStore
  import opened Publish

  // ----- effect of the record writes -----

  ghost predicate SameOutside(d: Disk, d': Disk, file: Bytes, g: nat) {
    forall p: Path :: !(p.InGeneration? && p.file == file && p.dir == Generation(g)) ==> SameAt(d, p, d', p)
  }

  lemma DistinctEntries(w: Draft, i: nat, j: nat)
    requires i < j < Parts(w)
    ensures PartEntry(w, i) != PartEntry(w, j)
  {
  }

  lemma {:induction false} WritePartsEffect(d: Disk, w: Draft, tape: seq<Seal>, count: nat)
    requires count <= Parts(w) == |tape|
    ensures var d' := Run(d, WriteParts(w, tape, count));
      && SameOutside(d, d', w.file, w.generation)
      && forall j :: 0 <= j < count ==>
          && PartPath(w.file, w.generation, PartEntry(w, j)) in d'
          && d'[PartPath(w.file, w.generation, PartEntry(w, j))] == Sealed(PartRecord(w, tape, j))
  {
    if count != 0 {
      WritePartsEffect(d, w, tape, count - 1);
      assert WriteParts(w, tape, count)[..count - 1] == WriteParts(w, tape, count - 1);
      forall j | 0 <= j < count - 1 ensures PartEntry(w, j) != PartEntry(w, count - 1) {
        DistinctEntries(w, j, count - 1);
      }
    }
  }

  function Mkdir(w: Draft): Op {
    Write(PartPath(w.file, w.generation, DirectoryItself), Opaque)
  }

  /** The disk after the directory and the first `count` records are written. */
  function Drafted(d: Disk, w: Draft, tape: seq<Seal>, count: nat): Disk
    requires count <= Parts(w) == |tape|
  {
    Run(Exec(d, Mkdir(w)), WriteParts(w, tape, count))
  }

  lemma DraftedEffect(d: Disk, w: Draft, tape: seq<Seal>, count: nat)
    requires count <= Parts(w) == |tape|
    ensures SameOutside(d, Drafted(d, w, tape, count), w.file, w.generation)
    ensures forall j {:trigger PartEntry(w, j)} :: 0 <= j < count ==>
      && PartPath(w.file, w.generation, PartEntry(w, j)) in Drafted(d, w, tape, count)
      && Drafted(d, w, tape, count)[PartPath(w.file, w.generation, PartEntry(w, j))] == Sealed(PartRecord(w, tape, j))
  {
    WritePartsEffect(Exec(d, Mkdir(w)), w, tape, count);
  }

  /** The flush's disk at step `k`, phase by phase. */
  lemma FlushPhases(b: Backing, w: Draft, tape: seq<Seal>, k: nat)
    requires |tape| == Parts(w) && k <= |FlushOps(b.disk, w, tape)|
    ensures var accepted := AcceptedFrom(tape, 0);
      FlushedBy(b, w, tape, k).disk ==
        if k == 0 then b.disk
        else if k <= 1 + accepted then Drafted(b.disk, w, tape, k - 1)
        else Run(Drafted(b.disk, w, tape, Parts(w)),
                 SwapOps(w.file, w.generation, PartRecord(w, tape, Parts(w) - 1),
                     Selected(w.file) in b.disk)[..k - 1 - accepted])
  {
    var accepted := AcceptedFrom(tape, 0);
    var ops := FlushOps(b.disk, w, tape);
    if 0 < k <= 1 + accepted {
      assert ops[..k] == [Mkdir(w)] + WriteParts(w, tape, k - 1);
      RunAppend(b.disk, [Mkdir(w)], WriteParts(w, tape, k - 1));
      assert Run(b.disk, [Mkdir(w)]) == Exec(b.disk, Mkdir(w));
    } else if k > 0 {
      var swap := SwapOps(w.file, w.generation, PartRecord(w, tape, Parts(w) - 1), Selected(w.file) in b.disk);
      assert ops[..k] == ([Mkdir(w)] + WriteParts(w, tape, Parts(w))) + swap[..k - 1 - accepted];
      RunAppend(b.disk, [Mkdir(w)] + WriteParts(w, tape, Parts(w)), swap[..k - 1 - accepted]);
      RunAppend(b.disk, [Mkdir(w)], WriteParts(w, tape, Parts(w)));
      assert Run(b.disk, [Mkdir(w)]) == Exec(b.disk, Mkdir(w));
    }
  }

  // ----- effect of the pointer swap -----

  datatype Slot = Absent | OldSelected | OldPrevious | New

  /** Which pointer each slot holds after `i` calls of the swap. */
  function SlotsAfter(replacing: bool, i: nat): (Slot, Slot) {
    if replacing then
      if i == 0 then (OldSelected, OldPrevious)
      else if i <= 3 then (OldSelected, OldSelected)
      else if i == 4 then (Absent, OldSelected)
      else (New, OldSelected)
    else if i <= 1 then (Absent, OldPrevious)
    else (New, OldPrevious)
  }

  ghost predicate Holds(d: Disk, p: Path, prior: Disk, file: Bytes, commit: Record, slot: Slot) {
    match slot
    case Absent => p !in d
    case OldSelected => SameAt(prior, Selected(file), d, p)
    case OldPrevious => SameAt(prior, Previous(file), d, p)
    case New => p in d && d[p] == Sealed(commit)
  }

  ghost predicate SameGenerations(d: Disk, d': Disk) {
    forall p: Path :: p.InGeneration? ==> SameAt(d, p, d', p)
  }

  lemma RunStep(d: Disk, ops: seq<Op>, i: nat)
    requires i < |ops|
    ensures Run(d, ops[..i + 1]) == Exec(Run(d, ops[..i]), ops[i])
  {
    assert ops[..i + 1][..i] == ops[..i];
  }

  lemma {:induction false} SwapEffect(d: Disk, file: Bytes, g: nat, commit: Record, i: nat)
    requires i <= |SwapOps(file, g, commit, Selected(file) in d)|
    ensures var replacing := Selected(file) in d;
      var d' := Run(d, SwapOps(file, g, commit, replacing)[..i]);
      && SameGenerations(d, d')
      && Holds(d', Selected(file), d, file, commit, SlotsAfter(replacing, i).0)
      && Holds(d', Previous(file), d, file, commit, SlotsAfter(replacing, i).1)
      && ((if replacing then 3 <= i <= 4 else i == 1) ==>
          SelectedTmp(file, g) in d' && d'[SelectedTmp(file, g)] == Sealed(commit))
  {
    var replacing := Selected(file) in d;
    var ops := SwapOps(file, g, commit, replacing);
    if i > 0 {
      SwapEffect(d, file, g, commit, i - 1);
      RunStep(d, ops, i - 1);
    }
  }

  // ----- the committed content -----

  function Pointer(d: Disk, file: Bytes): Path {
    if Selected(file) in d then Selected(file) else Previous(file)
  }

  /** The pointer that decides the committed content, if any, is readable. */
  predicate CommittedSound(b: Backing, file: Bytes) {
    Pointer(b.disk, file) in b.disk ==> ReadPointer(b, file, Pointer(b.disk, file)).Ok?
  }

  /** A pointer carried into `e` under the name `q` reads as it did in `b`. */
  lemma CarryPointer(b: Backing, e: Backing, file: Bytes, g: nat, p: Path, q: Path)
    requires e.store == b.store && Extends(b.log, e.log)
    requires ReadPointer(b, file, p).Ok? && CommitGeneration(b, file, p) != Ok(g)
    requires SameAt(b.disk, p, e.disk, q)
    requires forall x: Path :: x.InGeneration? && x.dir != Generation(g) ==> SameAt(b.disk, x, e.disk, x)
    ensures ReadPointer(e, file, q) == ReadPointer(b, file, p)
    ensures CommitGeneration(e, file, q) == CommitGeneration(b, file, p)
  {
    var h := CommitGeneration(b, file, p).value;
    assert SameGeneration(b.disk, e.disk, file, h);
    ReadPointerFrame(b, e, file, p, q);
  }

  lemma AcceptedAll(w: Draft, log: Log, tape: seq<Seal>)
    requires ValidTape(w, log, tape) && AcceptedFrom(tape, 0) == Parts(w)
    ensures DistinctNonces(tape)
    ensures |ManifestBytes(ManifestOf(w))| + TAG_LENGTH <= MAX_CIPHERTEXT
  {
    forall i, j | 0 <= i < j < |tape| ensures tape[i].nonce != tape[j].nonce {
      assert Accepted(tape, j);
    }
    assert Accepted(tape, Parts(w) - 2);
    assert |tape[Parts(w) - 2].ciphertext| == |PartPlain(w, Parts(w) - 2)| + TAG_LENGTH;
  }

  function SwapSteps(tape: seq<Seal>, k: nat): nat {
    var accepted := AcceptedFrom(tape, 0);
    if k <= 1 + accepted then 0 else k - 1 - accepted
  }

  /** What the two pointers of disk `e` are, in terms of those of disk `d`, `i` calls into the swap. */
  ghost predicate Swapped(d: Disk, e: Disk, w: Draft, tape: seq<Seal>, i: nat)
    requires |tape| == Parts(w)
  {
    var slots := SlotsAfter(Selected(w.file) in d, i);
    var commit := PartRecord(w, tape, Parts(w) - 1);
    && (forall x: Path :: x.InGeneration? && x.dir != Generation(w.generation) ==> SameAt(d, x, e, x))
    && Holds(e, Selected(w.file), d, w.file, commit, slots.0)
    && Holds(e, Previous(w.file), d, w.file, commit, slots.1)
  }

  lemma SwapPhase(d: Disk, w: Draft, tape: seq<Seal>, i: nat)
    requires |tape| == Parts(w)
    requires i <= |SwapOps(w.file, w.generation, PartRecord(w, tape, Parts(w) - 1), Selected(w.file) in d)|
    ensures var full := Drafted(d, w, tape, Parts(w));
      var e := Run(full, SwapOps(w.file, w.generation, PartRecord(w, tape, Parts(w) - 1), Selected(w.file) in d)[..i]);
      Swapped(d, e, w, tape, i) && SameGenerations(full, e)
  {
    DraftedEffect(d, w, tape, Parts(w));
    SwapEffect(Drafted(d, w, tape, Parts(w)), w.file, w.generation, PartRecord(w, tape, Parts(w) - 1), i);
  }

  lemma FlushSwaps(b: Backing, w: Draft, tape: seq<Seal>, k: nat)
    requires |tape| == Parts(w) && k <= |FlushOps(b.disk, w, tape)|
    ensures Swapped(b.disk, FlushedBy(b, w, tape, k).disk, w, tape, SwapSteps(tape, k))
  {
    FlushPhases(b, w, tape, k);
    var i := SwapSteps(tape, k);
    if i > 0 {
      SwapPhase(b.disk, w, tape, i);
    } else if k > 0 {
      DraftedEffect(b.disk, w, tape, k - 1);
    }
  }

  lemma FlushInstalls(b: Backing, w: Draft, tape: seq<Seal>, k: nat)
    requires b.store == w.store && ValidTape(w, b.log, tape)
    requires 1 + AcceptedFrom(tape, 0) < k <= |FlushOps(b.disk, w, tape)|
    ensures Installed(FlushedBy(b, w, tape, k), w, tape)
  {
    FlushPhases(b, w, tape, k);
    SealPartsExtends(w, b.log, tape, Parts(w));
    SwapPhase(b.disk, w, tape, SwapSteps(tape, k));
    DraftedEffect(b.disk, w, tape, Parts(w));
  }

  /** The state of the flush after `k` calls, in terms of the pointers it started with. */
  lemma FlushSlots(b: Backing, w: Draft, tape: seq<Seal>, k: nat)
    requires b.store == w.store && ValidTape(w, b.log, tape) && k <= |FlushOps(b.disk, w, tape)|
    ensures Extends(b.log, FlushedBy(b, w, tape, k).log)
    ensures Swapped(b.disk, FlushedBy(b, w, tape, k).disk, w, tape, SwapSteps(tape, k))
    ensures SwapSteps(tape, k) > 0 ==> Installed(FlushedBy(b, w, tape, k), w, tape)
  {
    SealPartsExtends(w, b.log, tape, SealedBy(tape, k));
    FlushSwaps(b, w, tape, k);
    if SwapSteps(tape, k) > 0 { FlushInstalls(b, w, tape, k); }
  }

  lemma CommittedOncePublished(b: Backing, w: Draft, tape: seq<Seal>, k: nat)
    requires b.store == w.store && ValidDraft(w) && ValidTape(w, b.log, tape)
    requires k <= |FlushOps(b.disk, w, tape)| && Published(b.disk, w, tape, k)
    ensures CommittedSound(FlushedBy(b, w, tape, k), w.file)
    ensures Committed(FlushedBy(b, w, tape, k), w.file) == Some(w.data)
  {
    FlushSlots(b, w, tape, k);
    AcceptedAll(w, b.log, tape);
    InstalledReads(FlushedBy(b, w, tape, k), w, tape, Selected(w.file));
  }

  lemma CommittedBeforePublished(b: Backing, w: Draft, tape: seq<Seal>, k: nat)
    requires b.store == w.store && ValidTape(w, b.log, tape)
    requires k <= |FlushOps(b.disk, w, tape)| && !Published(b.disk, w, tape, k)
    requires CommittedSound(b, w.file)
    requires CommitGeneration(b, w.file, Pointer(b.disk, w.file)) != Ok(w.generation)
    ensures CommittedSound(FlushedBy(b, w, tape, k), w.file)
    ensures Committed(FlushedBy(b, w, tape, k), w.file) == Committed(b, w.file)
  {
    FlushSlots(b, w, tape, k);
    var e := FlushedBy(b, w, tape, k);
    if Pointer(b.disk, w.file) in b.disk {
      CarryPointer(b, e, w.file, w.generation, Pointer(b.disk, w.file), Pointer(e.disk, w.file));
    }
  }

  /** Crash atomicity: the committed content switches from old to new exactly at the publishing
      rename, provided the new generation is not the committed one. */
  lemma CommittedDuringFlush(b: Backing, w: Draft, tape: seq<Seal>, k: nat)
    requires b.store == w.store && ValidDraft(w) && ValidTape(w, b.log, tape)
    requires k <= |FlushOps(b.disk, w, tape)|
    requires CommittedSound(b, w.file)
    requires CommitGeneration(b, w.file, Pointer(b.disk, w.file)) != Ok(w.generation)
    ensures CommittedSound(FlushedBy(b, w, tape, k), w.file)
    ensures Committed(FlushedBy(b, w, tape, k), w.file) ==
      if Published(b.disk, w, tape, k) then Some(w.data) else Committed(b, w.file)
  {
    hide FlushedBy, FlushOps, Published, CommittedSound, Committed, CommitGeneration;
    if Published(b.disk, w, tape, k) {
      CommittedOncePublished(b, w, tape, k);
    } else {
      CommittedBeforePublished(b, w, tape, k);
    }
  }

  /** Pointer `p` of `e` is readable and names a generation some pointer of `b` named, or `g`. */
  ghost predicate Inherits(b: Backing, e: Backing, file: Bytes, p: Path, g: nat) {
    && ReadPointer(e, file, p).Ok?
    && (|| CommitGeneration(e, file, p) == Ok(g)
        || (Selected(file) in b.disk && CommitGeneration(e, file, p) == CommitGeneration(b, file, Selected(file)))
        || (Previous(file) in b.disk && CommitGeneration(e, file, p) == CommitGeneration(b, file, Previous(file))))
  }

  lemma SelectedDuringFlush(b: Backing, w: Draft, tape: seq<Seal>, k: nat)
    requires b.store == w.store && ValidDraft(w) && ValidTape(w, b.log, tape)
    requires k <= |FlushOps(b.disk, w, tape)|
    requires Sound(b, w.file) && Unreferenced(b, w.file, w.generation)
    requires Selected(w.file) in FlushedBy(b, w, tape, k).disk
    ensures Inherits(b, FlushedBy(b, w, tape, k), w.file, Selected(w.file), w.generation)
  {
    FlushSlots(b, w, tape, k);
    var e := FlushedBy(b, w, tape, k);
    if Published(b.disk, w, tape, k) {
      AcceptedAll(w, b.log, tape);
      InstalledReads(e, w, tape, Selected(w.file));
    } else {
      CarryPointer(b, e, w.file, w.generation, Selected(w.file), Selected(w.file));
    }
  }

  lemma PreviousDuringFlush(b: Backing, w: Draft, tape: seq<Seal>, k: nat)
    requires b.store == w.store && ValidTape(w, b.log, tape)
    requires k <= |FlushOps(b.disk, w, tape)|
    requires Sound(b, w.file) && Unreferenced(b, w.file, w.generation)
    requires Previous(w.file) in FlushedBy(b, w, tape, k).disk
    ensures Inherits(b, FlushedBy(b, w, tape, k), w.file, Previous(w.file), w.generation)
  {
    FlushSlots(b, w, tape, k);
    var e := FlushedBy(b, w, tape, k);
    var slot := SlotsAfter(Selected(w.file) in b.disk, SwapSteps(tape, k)).1;
    var source := if slot == OldSelected then Selected(w.file) else Previous(w.file);
    CarryPointer(b, e, w.file, w.generation, source, Previous(w.file));
  }

  /** Both pointers stay readable at every stopping point when neither names the new generation. */
  lemma SoundDuringFlush(b: Backing, w: Draft, tape: seq<Seal>, k: nat)
    requires b.store == w.store && ValidDraft(w) && ValidTape(w, b.log, tape)
    requires k <= |FlushOps(b.disk, w, tape)|
    requires Sound(b, w.file) && Unreferenced(b, w.file, w.generation)
    ensures Sound(FlushedBy(b, w, tape, k), w.file)
  {
    if Selected(w.file) in FlushedBy(b, w, tape, k).disk { SelectedDuringFlush(b, w, tape, k); }
    if Previous(w.file) in FlushedBy(b, w, tape, k).disk { PreviousDuringFlush(b, w, tape, k); }
  }

  /** After a completed replacement the fallback pointer holds exactly the replaced content. */
  lemma FallbackIsReplacedContent(b: Backing, w: Draft, tape: seq<Seal>, k: nat)
    requires b.store == w.store && ValidDraft(w) && ValidTape(w, b.log, tape)
    requires k <= |FlushOps(b.disk, w, tape)| && Published(b.disk, w, tape, k)
    requires Selected(w.file) in b.disk && ReadPointer(b, w.file, Selected(w.file)).Ok?
    requires CommitGeneration(b, w.file, Selected(w.file)) != Ok(w.generation)
    ensures ReadPointer(FlushedBy(b, w, tape, k), w.file, Previous(w.file)) == Read(b, w.file)
  {
    FlushSlots(b, w, tape, k);
    CarryPointer(b, FlushedBy(b, w, tape, k), w.file, w.generation, Selected(w.file), Previous(w.file));
  }

  // ----- reusing the committed generation number -----

  lemma {:induction false} InstalledChunksOnly(c: Backing, w: Draft, tape: seq<Seal>, i: nat, nonces: set<Bytes>)
    requires |tape| == Parts(w) && Installed(c, w, tape) && i <= |Chunks(w.data)|
    requires ReadChunks(c, w.file, w.generation, Lengths(w.data), i, nonces).Ok?
    ensures ReadChunks(c, w.file, w.generation, Lengths(w.data), i, nonces).value == Concat(Chunks(w.data)[i..])
    decreases |Chunks(w.data)| - i
  {
    var chunks := Chunks(w.data);
    if i < |chunks| {
      assert PartEntry(w, i) == ChunkRec(i);
      InstalledChunksOnly(c, w, tape, i + 1, nonces + {PartRecord(w, tape, i).nonce});
      assert chunks[i..][1..] == chunks[i + 1..];
    }
  }

  /** Through any pointer to it, an installed generation yields its own data or nothing. */
  lemma InstalledReadsOnly(c: Backing, w: Draft, tape: seq<Seal>, p: Path)
    requires |tape| == Parts(w) && Installed(c, w, tape) && ValidDraft(w)
    requires |ManifestBytes(ManifestOf(w))| + TAG_LENGTH <= MAX_CIPHERTEXT
    requires ReadCommit(c, w.file, p).Ok? && ReadCommit(c, w.file, p).value.1 == CommitOf(w)
    ensures ReadPointer(c, w.file, p).Ok? ==> ReadPointer(c, w.file, p) == Ok(w.data)
  {
    InstalledManifestReads(c, w, tape);
    var nonce := ReadCommit(c, w.file, p).value.0.nonce;
    var nonces := {nonce, PartRecord(w, tape, Parts(w) - 2).nonce};
    if ReadChunks(c, w.file, w.generation, Lengths(w.data), 0, nonces).Ok? {
      InstalledChunksOnly(c, w, tape, 0, nonces);
      ConcatChunks(w.data);
      assert Chunks(w.data)[0..] == Chunks(w.data);
    }
  }

  lemma AllPartsWritten(b: Backing, w: Draft, tape: seq<Seal>)
    requires b.store == w.store && ValidTape(w, b.log, tape) && AcceptedFrom(tape, 0) == Parts(w)
    ensures 1 + Parts(w) <= |FlushOps(b.disk, w, tape)| && !Published(b.disk, w, tape, 1 + Parts(w))
    ensures var e := FlushedBy(b, w, tape, 1 + Parts(w));
      Installed(e, w, tape) && e.store == b.store && Extends(b.log, e.log)
          && SameOutside(b.disk, e.disk, w.file, w.generation)
  {
    FlushPhases(b, w, tape, 1 + Parts(w));
    SealPartsExtends(w, b.log, tape, SealedBy(tape, 1 + Parts(w)));
    DraftedEffect(b.disk, w, tape, Parts(w));
  }

  /** With the committed generation's number the records are overwritten in place: once all parts
      are written, and before any pointer is touched, the old content can no longer be read. */
  lemma ReusedGenerationLosesContent(b: Backing, w: Draft, tape: seq<Seal>)
    requires b.store == w.store && ValidDraft(w) && ValidTape(w, b.log, tape)
    requires AcceptedFrom(tape, 0) == Parts(w)
    requires Pointer(b.disk, w.file) in b.disk && CommittedSound(b, w.file)
    requires CommitGeneration(b, w.file, Pointer(b.disk, w.file)) == Ok(w.generation)
    ensures 1 + Parts(w) <= |FlushOps(b.disk, w, tape)| && !Published(b.disk, w, tape, 1 + Parts(w))
    ensures Committed(FlushedBy(b, w, tape, 1 + Parts(w)), w.file) in {None, Some(w.data)}
  {
    var p := Pointer(b.disk, w.file);
    AllPartsWritten(b, w, tape);
    AcceptedAll(w, b.log, tape);
    var e := FlushedBy(b, w, tape, 1 + Parts(w));
    ReadCommitFrame(b, e, w.file, p, p);
    InstalledReadsOnly(e, w, tape, p);
  }

  /** Exactly when a flush is atomic: the generation counter must not repeat the committed number.
      (The counter is a process static that restarts at 1, so a restarted process can repeat it.) */
  lemma AtomicExactlyWhenGenerationIsNew(b: Backing, w: Draft, tape: seq<Seal>)
    requires b.store == w.store && ValidDraft(w) && ValidTape(w, b.log, tape)
    requires AcceptedFrom(tape, 0) == Parts(w)
    requires Pointer(b.disk, w.file) in b.disk && CommittedSound(b, w.file)
    requires Committed(b, w.file) != Some(w.data)
    ensures (forall k :: 0 <= k <= |FlushOps(b.disk, w, tape)| && !Published(b.disk, w, tape, k) ==>
              Committed(FlushedBy(b, w, tape, k), w.file) == Committed(b, w.file))
       <==> CommitGeneration(b, w.file, Pointer(b.disk, w.file)) != Ok(w.generation)
  {
    if CommitGeneration(b, w.file, Pointer(b.disk, w.file)) != Ok(w.generation) {
      forall k: nat | k <= |FlushOps(b.disk, w, tape)| && !Published(b.disk, w, tape, k)
        ensures Committed(FlushedBy(b, w, tape, k), w.file) == Committed(b, w.file)
      {
        CommittedDuringFlush(b, w, tape, k);
      }
    } else {
      ReusedGenerationLosesContent(b, w, tape);
      var k := 1 + Parts(w);
      assert Committed(FlushedBy(b, w, tape, k), w.file) != Committed(b, w.file);
    }
  }
}
