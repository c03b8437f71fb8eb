/** The store object itself: fields updated in place, filesystem calls made one at a time against a
    budget after which the process is stopped. Each method is proved to have exactly the effect the
    run semantics gives it, so the run theorems apply to it. */
module EncryptedStore {
  import opened Wire
  import opened StorageFormat
  import opened CommitStore
  import opened Publish
  import opened CrashSafety
  import opened Recovery
  import opened StoreRuns

  lemma {:induction false} AcceptedPrefix(tape: seq<Seal>, i: nat)
    requires i <= |tape| && forall j :: 0 <= j < i ==> Accepted(tape, j)
    ensures AcceptedFrom(tape, 0) == AcceptedFrom(tape, i)
  {
    if i > 0 { AcceptedPrefix(tape, i - 1); }
  }

  /** The nonces of the first `i` seals. */
  function NoncesOf(tape: seq<Seal>, i: nat): set<Bytes>
    requires i <= |tape|
  {
    if i == 0 then {} else NoncesOf(tape, i - 1) + {tape[i - 1].nonce}
  }

  lemma {:induction false} NoncesOfMember(tape: seq<Seal>, i: nat, nonce: Bytes)
    requires i <= |tape|
    ensures nonce in NoncesOf(tape, i) <==> exists j :: 0 <= j < i && tape[j].nonce == nonce
  {
    if i > 0 { NoncesOfMember(tape, i - 1, nonce); }
  }

  lemma DraftedStep(d: Disk, w: Draft, tape: seq<Seal>, i: nat)
    requires i < Parts(w) == |tape|
    ensures Drafted(d, w, tape, i + 1) ==
      Exec(Drafted(d, w, tape, i), Write(PartPath(w.file, w.generation, PartEntry(w, i)),
          Sealed(PartRecord(w, tape, i))))
  {
    assert WriteParts(w, tape, i + 1)[..i] == WriteParts(w, tape, i);
  }

  /** The buffer edit of `write_at`: grow with zeros if needed, then overwrite. */
  method OverwriteAt(data: Bytes, offset: nat, bytes: Bytes) returns (edited: Bytes)
    ensures edited == Splice(data, offset, bytes)
  {
    var end := offset + |bytes|;
    edited := data;
    if end > |edited| {
      edited := Resize(edited, end);
    }
    edited := edited[..offset] + bytes + edited[end..];
  }

  /** A flush stopped, or refused, at part `i`: `i` parts written, one more sealed. */
  lemma FlushAtPart(b: Backing, w: Draft, tape: seq<Seal>, i: nat)
    requires i < |tape| == Parts(w) && forall j :: 0 <= j < i ==> Accepted(tape, j)
    ensures 1 + i <= |FlushOps(b.disk, w, tape)|
    ensures Accepted(tape, i) ==> i < AcceptedFrom(tape, 0) && 2 + i <= |FlushOps(b.disk, w, tape)|
    ensures !Accepted(tape, i) ==> i == AcceptedFrom(tape, 0) && |FlushOps(b.disk, w, tape)| == 1 + i
    ensures FlushedBy(b, w, tape, 1 + i)
        == Backing(b.store, SealParts(w, b.log, tape, i + 1), Drafted(b.disk, w, tape, i))
  {
    AcceptedPrefix(tape, i);
    FlushPhases(b, w, tape, 1 + i);
  }

  /** A flush whose parts were all accepted, `i` calls into the pointer swap. */
  lemma FlushAtSwap(b: Backing, w: Draft, tape: seq<Seal>, i: nat)
    requires |tape| == Parts(w) && forall j :: 0 <= j < |tape| ==> Accepted(tape, j)
    requires i <= |SwapOps(w.file, w.generation, PartRecord(w, tape, Parts(w) - 1), Selected(w.file) in b.disk)|
    ensures var swap := SwapOps(w.file, w.generation, PartRecord(w, tape, Parts(w) - 1), Selected(w.file) in b.disk);
      && AcceptedFrom(tape, 0) == Parts(w)
      && |FlushOps(b.disk, w, tape)| == 1 + Parts(w) + |swap|
      && FlushedBy(b, w, tape, 1 + Parts(w) + i) ==
          Backing(b.store, SealParts(w, b.log, tape, Parts(w)), Run(Drafted(b.disk, w, tape, Parts(w)), swap[..i]))
  {
    hide SealParts, Drafted, PartRecord, SwapOps;
    AcceptedPrefix(tape, |tape|);
    FlushPhases(b, w, tape, 1 + Parts(w) + i);
    if i == 0 {
      assert Run(Drafted(b.disk, w, tape, Parts(w)), []) == Drafted(b.disk, w, tape, Parts(w));
    }
  }

  lemma NextChunk(data: Bytes, rest: Bytes, index: nat)
    requires rest != [] && index <= |Chunks(data)| && Chunks(data)[index..] == Chunks(rest)
    ensures var chunk := if |rest| <= CHUNK_SIZE then rest else rest[..CHUNK_SIZE];
      && index < |Chunks(data)|
      && Chunks(data)[index] == chunk
      && Chunks(data)[index + 1..] == Chunks(rest[|chunk|..])
  {
    assert Chunks(data)[index] == Chunks(data)[index..][0];
    assert Chunks(data)[index + 1..] == Chunks(data)[index..][1..];
  }

  lemma FlushStepUnstarted(s: Store, file: Bytes, tape: seq<Seal>)
    requires file in s.staged && |tape| == Parts(DraftOf(s, file))
    ensures FlushStep(s, file, tape, 0) == (s.(nextGeneration := s.nextGeneration + 1), Err(IoFailure))
  {
    FlushPhases(s.back, DraftOf(s, file), tape, 0);
  }

  /** What a flush returns once all its parts were accepted, by how many calls were made. */
  lemma FlushStepAccepted(s: Store, file: Bytes, tape: seq<Seal>, stop: nat, total: nat, back: Backing)
    requires file in s.staged && |tape| == Parts(DraftOf(s, file)) && AcceptedFrom(tape, 0) == |tape|
    requires total == |FlushOps(s.back.disk, DraftOf(s, file), tape)|
    requires back == FlushedBy(s.back, DraftOf(s, file), tape, Min(stop, total))
    ensures FlushStep(s, file, tape, stop) ==
      if stop < total
      then (Store(back, s.staged, s.nextGeneration + 1), Err(IoFailure))
      else (Store(back, s.staged - {file}, s.nextGeneration + 1), Ok(s.nextGeneration))
  {
    hide FlushedBy, FlushOps, AcceptedFrom, Parts;
  }

  class LocalEncryptedStore {
    const storeId: Bytes
    var disk: Disk
    var log: Log
    var staged: map<Bytes, Bytes>
    var nextGeneration: nat
    var budget: nat

    constructor (storeId: Bytes, disk: Disk, log: Log, nextGeneration: nat, budget: nat)
      ensures State() == Store(Backing(storeId, log, disk), map[], nextGeneration) && this.budget == budget
    {
      this.storeId, this.disk, this.log := storeId, disk, log;
      this.nextGeneration, this.budget, this.staged := nextGeneration, budget, map[];
    }

    ghost function State(): Store
      reads this
    {
      Store(Backing(storeId, log, disk), staged, nextGeneration)
    }

    // ----- reading -----

    /** Reads and reassembles the generation a pointer names, checking every record on the way. */
    method ReadFromPointer(file: Bytes, p: Path) returns (r: Result<Bytes, StorageError>)
      ensures r == ReadPointer(State().back, file, p)
    {
      var back := Backing(storeId, log, disk);
      var pointer :- ReadCommit(back, file, p);
      var (selected, commit) := pointer;
      var _ :- CheckCommitted(back, file, commit);
      var part :- ReadManifest(back, file, commit.generation);
      var (manifestRecord, manifest) := part;
      if manifestRecord.nonce == selected.nonce {
        return Err(IntegrityFailure);
      }
      var out := ReadBody(file, commit.generation, manifest.chunkLengths, {selected.nonce, manifestRecord.nonce});
      if out.Ok? && |out.value| != manifest.logicalLength {
        return Err(IntegrityFailure);
      }
      return out;
    }

    method ReadBody(file: Bytes, g: nat, lengths: seq<nat>, start: set<Bytes>) returns (r: Result<Bytes, StorageError>)
      ensures r == ReadChunks(State().back, file, g, lengths, 0, start)
    {
      var back := Backing(storeId, log, disk);
      var nonces := start;
      var out: Bytes := [];
      var i := 0;
      assert forall rest: Bytes :: [] + rest == rest;
      while i < |lengths|
        invariant i <= |lengths|
        invariant match ReadChunks(back, file, g, lengths, i, nonces)
          case Err(e) => ReadChunks(back, file, g, lengths, 0, start) == Err(e)
          case Ok(rest) => ReadChunks(back, file, g, lengths, 0, start) == Ok(out + rest)
      {
        var part := ReadChunk(back, file, g, lengths[i], i, nonces);
        if part.Err? {
          return Err(part.error);
        }
        var (record, plain) := part.value;
        ghost var rest := ReadChunks(back, file, g, lengths, i + 1, nonces + {record.nonce});
        assert rest.Ok? ==> out + (plain + rest.value) == (out + plain) + rest.value;
        out := out + plain;
        nonces := nonces + {record.nonce};
        i := i + 1;
      }
      assert out + [] == out;
      return Ok(out);
    }

    // ----- staging -----

    method StageBytes(file: Bytes, data: Bytes)
      modifies this`staged
      ensures State() == Next(old(State()), Stage(file, data))
    {
      staged := staged[file := data];
    }

    method WriteAtOffset(file: Bytes, offset: nat, bytes: Bytes) returns (r: Result<(), StorageError>)
      modifies this`staged
      ensures (State(), r) == WriteAtStep(old(State()), file, offset, bytes)
    {
      var content := ReadFromPointer(file, Selected(file));
      var existing := if content.Ok? then content.value else [];
      var entry := if file in staged then staged[file] else existing;
      staged := staged[file := entry];
      if offset + |bytes| > USIZE_MAX {
        return Err(IoFailure);
      }
      var edited := OverwriteAt(entry, offset, bytes);
      assert old(staged)[file := entry][file := edited] == old(staged)[file := edited];
      staged := staged[file := edited];
      return Ok(());
    }

    method TruncateTo(file: Bytes, length: nat)
      modifies this`staged
      ensures State() == TruncateStep(old(State()), file, length)
    {
      var data: Bytes;
      if file in staged {
        data := staged[file];
      } else {
        var content := ReadFromPointer(file, Selected(file));
        data := if content.Ok? then content.value else [];
      }
      staged := staged[file := Resize(data, length)];
    }

    // ----- filesystem calls -----

    /** One filesystem call: refused once the budget is used up. */
    method Call(op: Op) returns (ok: bool)
      modifies this`disk, this`budget
      ensures ok == (old(budget) > 0)
      ensures disk == if ok then Exec(old(disk), op) else old(disk)
      ensures budget == if ok then old(budget) - 1 else old(budget)
    {
      if budget == 0 {
        return false;
      }
      budget := budget - 1;
      disk := Exec(disk, op);
      return true;
    }

    // ----- flushing -----

    /** `i` parts of the draft are sealed and on disk; the rest of the store is as it was. */
    ghost predicate Progress(s: Store, w: Draft, tape: seq<Seal>, i: nat, stop: nat)
      requires |tape| == Parts(w)
      reads this
    {
      && i <= Parts(w)
      && storeId == s.back.store
      && staged == s.staged
      && nextGeneration == s.nextGeneration + 1
      && disk == Drafted(s.back.disk, w, tape, i)
      && log == SealParts(w, s.back.log, tape, i)
      && stop == budget + 1 + i
      && forall j :: 0 <= j < i ==> Accepted(tape, j)
    }

    /** Seals one part and writes its record. */
    method WritePart(header: Header, plain: Bytes, entry: Entry, seal: Seal, nonces: set<Bytes>,
                     ghost s: Store, ghost w: Draft, ghost tape: seq<Seal>, ghost i: nat, ghost stop: nat)
      returns (r: Result<(), StorageError>)
      requires w.file in s.staged && w == DraftOf(s, w.file) && |tape| == Parts(w) && i < Parts(w)
      requires Progress(s, w, tape, i, stop)
      requires header == PartHeader(w, i) && plain == PartPlain(w, i) && entry == PartEntry(w, i) && seal == tape[i]
      requires nonces == NoncesOf(tape, i)
      modifies this`disk, this`log, this`budget
      ensures r.Ok? ==> Progress(s, w, tape, i + 1, stop)
      ensures r.Err? ==> (State(), Err(r.error)) == FlushStep(s, w.file, tape, stop)
    {
      hide FlushedBy, FlushOps, Drafted, AcceptedFrom, Chunks, PartPlain, PartEntry;
      var record := Record(header, seal.nonce, seal.ciphertext);
      assert record == PartRecord(w, tape, i);
      log := log[record := plain];
      FlushAtPart(s.back, w, tape, i);
      NoncesOfMember(tape, i, seal.nonce);
      if seal.nonce in nonces || |seal.ciphertext| > MAX_CIPHERTEXT {
        assert !Accepted(tape, i);
        return Err(IntegrityFailure);
      }
      assert Accepted(tape, i);
      var ok := Call(Write(PartPath(header.fileId, header.generation, entry), Sealed(record)));
      if !ok {
        return Err(IoFailure);
      }
      DraftedStep(s.back.disk, w, tape, i);
      return Ok(());
    }

    /** The next call of a planned sequence. */
    method CallNext(op: Op, ghost start: Disk, ghost ops: seq<Op>, ghost n: nat) returns (ok: bool)
      requires n < |ops| && op == ops[n] && disk == Run(start, ops[..n])
      modifies this`disk, this`budget
      ensures ok == (old(budget) > 0)
      ensures disk == Run(start, ops[..if ok then n + 1 else n])
      ensures budget == if ok then old(budget) - 1 else old(budget)
    {
      RunStep(start, ops, n);
      ok := Call(op);
    }

    /** The swap of the selected pointer, call by call. */
    method SwapPointer(file: Bytes, generation: nat, commit: Record) returns (ok: bool)
      modifies this`disk, this`budget
      ensures var ops := SwapOps(file, generation, commit, Selected(file) in old(disk));
        && ok == (old(budget) >= |ops|)
        && disk == Run(old(disk), ops[..Min(old(budget), |ops|)])
        && budget == old(budget) - Min(old(budget), |ops|)
    {
      ghost var start := disk;
      var replacing := Selected(file) in disk;
      ghost var ops := SwapOps(file, generation, commit, replacing);
      ghost var n := 0;
      assert Run(start, ops[..0]) == start;
      if replacing {
        ok := CallNext(Copy(Selected(file), Previous(file)), start, ops, 0);
        if !ok { return; }
        ok := CallNext(Write(Marker(file), Opaque), start, ops, 1);
        if !ok { return; }
        n := 2;
      }
      ok := CallNext(Write(SelectedTmp(file, generation), Sealed(commit)), start, ops, n);
      if !ok { return; }
      n := n + 1;
      if replacing {
        ok := CallNext(Remove(Selected(file)), start, ops, n);
        if !ok { return; }
        n := n + 1;
      }
      ok := CallNext(Rename(SelectedTmp(file, generation), Selected(file)), start, ops, n);
      if !ok { return; }
      ok := CallNext(Write(Marker(file), Opaque), start, ops, n + 1);
    }

    /** The chunk loop: cut, seal and write, keeping the lengths and the nonces used. */
    method WriteChunks(file: Bytes, generation: nat, data: Bytes, tape: seq<Seal>, ghost s: Store, ghost w: Draft,
        ghost stop: nat)
      returns (r: Result<(seq<nat>, set<Bytes>), StorageError>)
      requires file in s.staged && w == DraftOf(s, file) && |tape| == Parts(w)
      requires w.generation == generation && w.data == data && Progress(s, w, tape, 0, stop)
      modifies this`disk, this`log, this`budget
      ensures r.Ok? ==>
        && Progress(s, w, tape, |Chunks(data)|, stop)
        && r.value.0 == Lengths(data)
        && r.value.1 == NoncesOf(tape, |Chunks(data)|)
      ensures r.Err? ==> (State(), Err(r.error)) == FlushStep(s, file, tape, stop)
    {
      hide FlushStep, Drafted, Chunks;
      var lengths: seq<nat> := [];
      var nonces: set<Bytes> := {};
      var rest := data;
      var index := 0;
      while rest != []
        invariant index <= |Chunks(data)| && Chunks(data)[index..] == Chunks(rest)
        invariant Progress(s, w, tape, index, stop)
        invariant lengths == Lengths(data)[..index]
        invariant nonces == NoncesOf(tape, index)
        decreases |rest|
      {
        var chunk := if |rest| <= CHUNK_SIZE then rest else rest[..CHUNK_SIZE];
        NextChunk(data, rest, index);
        var header := Header(FORMAT_VERSION_V1, storeId, file, generation, Chunk, index, |chunk|);
        var _ :- WritePart(header, chunk, ChunkRec(index), tape[index], nonces, s, w, tape, index, stop);
        lengths := lengths + [|chunk|];
        nonces := nonces + {tape[index].nonce};
        rest := rest[|chunk|..];
        index := index + 1;
      }
      return Ok((lengths, nonces));
    }

    /** Writes the whole generation and returns its commit record. */
    method WriteGeneration(file: Bytes, generation: nat, data: Bytes, tape: seq<Seal>, ghost s: Store,
        ghost w: Draft, ghost stop: nat)
      returns (r: Result<Record, StorageError>)
      requires file in s.staged && w == DraftOf(s, file) && |tape| == Parts(w) && ValidDraft(w)
      requires w.generation == generation && w.data == data && Progress(s, w, tape, 0, stop)
      modifies this`disk, this`log, this`budget
      ensures r.Ok? ==> Progress(s, w, tape, Parts(w), stop) && r.value == PartRecord(w, tape, Parts(w) - 1)
      ensures r.Err? ==> (State(), Err(r.error)) == FlushStep(s, file, tape, stop)
    {
      hide FlushStep, Drafted, SealParts;
      var body :- WriteChunks(file, generation, data, tape, s, w, stop);
      var (lengths, nonces) := body;
      var _ :- WriteManifestPart(file, generation, |data|, lengths, tape[|lengths|], nonces, s, w, tape, stop);
      var n := |lengths| + 1;
      var commit :- WriteCommitPart(file, generation, tape[n], nonces + {tape[n - 1].nonce}, s, w, tape, stop);
      return Ok(commit);
    }

    method WriteManifestPart(file: Bytes, generation: nat, size: nat, lengths: seq<nat>, seal: Seal, nonces: set<Bytes>,
                             ghost s: Store, ghost w: Draft, ghost tape: seq<Seal>, ghost stop: nat)
      returns (r: Result<(), StorageError>)
      requires w.file in s.staged && w == DraftOf(s, w.file) && |tape| == Parts(w) && ValidDraft(w)
      requires file == w.file && generation == w.generation && size == |w.data| && lengths == Lengths(w.data)
      requires seal == tape[|lengths|] && nonces == NoncesOf(tape, |lengths|) && Progress(s, w, tape, |lengths|, stop)
      modifies this`disk, this`log, this`budget
      ensures r.Ok? ==> Progress(s, w, tape, |lengths| + 1, stop)
      ensures r.Err? ==> (State(), Err(r.error)) == FlushStep(s, w.file, tape, stop)
    {
      var manifest := EncodeManifest(ManifestData(generation, file, size, lengths));
      var header := Header(FORMAT_VERSION_V1, storeId, file, generation, Manifest, 0, |manifest.value|);
      r := WritePart(header, manifest.value, ManifestRec, seal, nonces, s, w, tape, |lengths|, stop);
    }

    method WriteCommitPart(file: Bytes, generation: nat, seal: Seal, nonces: set<Bytes>,
                           ghost s: Store, ghost w: Draft, ghost tape: seq<Seal>, ghost stop: nat)
      returns (r: Result<Record, StorageError>)
      requires w.file in s.staged && w == DraftOf(s, w.file) && |tape| == Parts(w) && ValidDraft(w)
      requires file == w.file && generation == w.generation
      requires seal == tape[Parts(w) - 1] && nonces == NoncesOf(tape, Parts(w) - 1)
          && Progress(s, w, tape, Parts(w) - 1, stop)
      modifies this`disk, this`log, this`budget
      ensures r.Ok? ==> Progress(s, w, tape, Parts(w), stop) && r.value == PartRecord(w, tape, Parts(w) - 1)
      ensures r.Err? ==> (State(), Err(r.error)) == FlushStep(s, w.file, tape, stop)
    {
      var commit := EncodeCommit(CommitData(generation, file));
      var header := Header(FORMAT_VERSION_V1, storeId, file, generation, Commit, 0, |commit.value|);
      var _ :- WritePart(header, commit.value, CommitRec, seal, nonces, s, w, tape, Parts(w) - 1, stop);
      return Ok(Record(header, seal.nonce, seal.ciphertext));
    }

    /** The publishing half of a flush. */
    method PublishGeneration(file: Bytes, generation: nat, commit: Record, ghost s: Store, ghost w: Draft,
        ghost tape: seq<Seal>, ghost stop: nat)
      returns (r: Result<nat, StorageError>)
      requires file in s.staged && w == DraftOf(s, file) && |tape| == Parts(w) && generation == w.generation
      requires Progress(s, w, tape, Parts(w), stop) && commit == PartRecord(w, tape, Parts(w) - 1)
      modifies this`disk, this`budget, this`staged
      ensures (State(), r) == FlushStep(s, file, tape, stop)
    {
      hide FlushStep, FlushedBy, FlushOps, Drafted, SwapOps, Run, PartRecord, Parts, SealParts, AcceptedFrom;
      assert Selected(file) in disk <==> Selected(file) in s.back.disk by {
        DraftedEffect(s.back.disk, w, tape, Parts(w));
      }
      ghost var swap := |SwapOps(file, generation, commit, Selected(file) in disk)|;
      ghost var total := 1 + Parts(w) + swap;
      FlushAtSwap(s.back, w, tape, Min(budget, swap));
      var ok := SwapPointer(file, generation, commit);
      FlushStepAccepted(s, file, tape, stop, total, Backing(storeId, log, disk));
      if !ok {
        return Err(IoFailure);
      }
      staged := staged - {file};
      return Ok(generation);
    }

    /** `flush_file`: publishes the staged bytes as a new generation. */
    method FlushFile(file: Bytes, tape: seq<Seal>) returns (r: Result<nat, StorageError>)
      requires file in staged ==> ValidDraft(DraftOf(State(), file)) && |tape| == Parts(DraftOf(State(), file))
      modifies this
      ensures (State(), r) == FlushStep(old(State()), file, tape, old(budget))
    {
      if file !in staged {
        return Err(NotFound);
      }
      ghost var s, stop := State(), budget;
      ghost var w := DraftOf(s, file);
      var data, generation := staged[file], nextGeneration;
      nextGeneration := nextGeneration + 1;
      var ok := Call(Write(PartPath(file, generation, DirectoryItself), Opaque));
      if !ok {
        FlushStepUnstarted(s, file, tape);
        return Err(IoFailure);
      }
      var commit :- WriteGeneration(file, generation, data, tape, s, w, stop);
      r := PublishGeneration(file, generation, commit, s, w, tape, stop);
    }

    // ----- recovery -----

    /** Removes every path that no pointer reaches, in the order the listing gives. */
    method RemoveListed(order: seq<Path>) returns (ok: bool)
      modifies this`disk, this`budget
      ensures ok == (old(budget) >= |order|)
      ensures disk == Run(old(disk), RemoveOps(order)[..Min(old(budget), |order|)])
      ensures budget == old(budget) - Min(old(budget), |order|)
    {
      ghost var start, stop, ops := disk, budget, RemoveOps(order);
      assert Run(start, ops[..0]) == start;
      for i := 0 to |order|
        invariant i <= stop && budget == stop - i && disk == Run(start, ops[..i])
      {
        ok := CallNext(Remove(order[i]), start, ops, i);
        if !ok { return; }
      }
      ok := true;
    }

    /** A directory listing: every element of the set once, in some order. */
    method ListPaths(paths: set<Path>) returns (order: seq<Path>)
      ensures Enumerates(order, paths)
    {
      var left := paths;
      order := [];
      while left != {}
        invariant left <= paths && Enumerates(order, paths - left)
        decreases left
      {
        var p :| p in left;
        assert paths - (left - {p}) == (paths - left) + {p};
        order := order + [p];
        left := left - {p};
      }
      assert paths - {} == paths;
    }

    /** `recover_store`: settles the selected pointer and collects unreachable generations. */
    method RecoverFile(file: Bytes) returns (r: Result<Report, StorageError>, ghost order: seq<Path>)
      modifies this`disk, this`budget
      ensures Legal(old(State()), Recover(file, order, old(budget)))
      ensures (State(), r) == RecoverStep(old(State()), file, order, old(budget))
    {
      ghost var s, stop := State(), budget;
      order := [];
      var report: Report;
      if Selected(file) !in disk {
        var content := ReadFromPointer(file, Previous(file));
        if content.Err? {
          return if content.error == NotFound then Err(RecoveryRequired) else Err(content.error), order;
        }
        report := Report(CommitGeneration(Backing(storeId, log, disk), file, Previous(file)).value, true);
      } else {
        var content := ReadFromPointer(file, Selected(file));
        if content.Err? {
          return if content.error == NotFound then Err(IntegrityFailure) else Err(content.error), order;
        }
        report := Report(CommitGeneration(Backing(storeId, log, disk), file, Selected(file)).value, false);
      }
      assert Plan(s.back, file) == Ok(report);
      var listing := ListPaths(Doomed(Backing(storeId, log, disk), file, report.generation));
      order := listing;
      var ok := RestoreAndClean(file, report, listing);
      return if ok then Ok(report) else Err(IoFailure), order;
    }

    method RestoreAndClean(file: Bytes, report: Report, order: seq<Path>) returns (ok: bool)
      modifies this`disk, this`budget
      ensures var ops := RecoverOps(file, report, order);
        && ok == (old(budget) >= |ops|)
        && disk == Run(old(disk), ops[..Min(old(budget), |ops|)])
    {
      ghost var start, stop := disk, budget;
      ghost var ops := RecoverOps(file, report, order);
      ghost var lead := RestoreOps(file, report.fromPrior);
      assert Run(start, ops[..0]) == start;
      if report.fromPrior {
        ok := CallNext(Copy(Previous(file), Selected(file)), start, ops, 0);
        if !ok { return; }
        ok := CallNext(Write(Marker(file), Opaque), start, ops, 1);
        if !ok { return; }
      }
      assert ops[..|lead|] == lead;
      ok := RemoveListed(order);
      ghost var k := Min(stop - |lead|, |order|);
      assert ops[..|lead| + k] == lead + RemoveOps(order)[..k];
      RunAppend(start, lead, RemoveOps(order)[..k]);
    }
  }
}
