/** Publishing one staged file: the exact filesystem calls of `flush_file`, and the proof that
    stopping between any two of them leaves either the old content or the new one. */
module Publish {
  import opened Wire
  import opened StorageFormat
  import opened CommitStore

  // ----- chunking -----

  function Chunks(data: Bytes): (c: seq<Bytes>)
    ensures forall i :: 0 <= i < |c| ==> 0 < |c[i]| <= CHUNK_SIZE
    ensures CHUNK_SIZE * |c| < |data| + CHUNK_SIZE
  {
    if data == [] then []
    else if |data| <= CHUNK_SIZE then [data]
    else [data[..CHUNK_SIZE]] + Chunks(data[CHUNK_SIZE..])
  }

  function Concat(parts: seq<Bytes>): Bytes {
    if parts == [] then [] else parts[0] + Concat(parts[1..])
  }

  lemma {:induction false} ConcatChunks(data: Bytes)
    ensures Concat(Chunks(data)) == data
  {
    if |data| > CHUNK_SIZE {
      ConcatChunks(data[CHUNK_SIZE..]);
      assert Chunks(data)[1..] == Chunks(data[CHUNK_SIZE..]);
    } else if data != [] {
      assert Concat([data]) == data + Concat([data][1..]) == data + [];
    }
  }

  // ----- a generation about to be written -----

  datatype Draft = Draft(store: Bytes, file: Bytes, generation: nat, data: Bytes)

  /** What the cipher produced for one record: a random nonce and the ciphertext. */
  datatype Seal = Seal(nonce: Bytes, ciphertext: Bytes)

  predicate ValidDraft(w: Draft) {
    ValidId(w.store) && ValidId(w.file) && w.generation < U64 && |w.data| <= CHUNK_SIZE * (U32 - 1)
  }

  function Lengths(data: Bytes): (lengths: seq<nat>)
    ensures |lengths| == |Chunks(data)|
  {
    seq(|Chunks(data)|, i requires 0 <= i < |Chunks(data)| => |Chunks(data)[i]|)
  }

  function ManifestOf(w: Draft): ManifestData {
    ManifestData(w.generation, w.file, |w.data|, Lengths(w.data))
  }

  function CommitOf(w: Draft): CommitData {
    CommitData(w.generation, w.file)
  }

  /** The records of a generation in the order they are sealed: chunks, manifest, commit. */
  function Parts(w: Draft): nat {
    |Chunks(w.data)| + 2
  }

  function PartEntry(w: Draft, j: nat): Entry
    requires j < Parts(w)
  {
    var n := |Chunks(w.data)|;
    if j < n then ChunkRec(j) else if j == n then ManifestRec else CommitRec
  }

  function PartPlain(w: Draft, j: nat): Bytes
    requires j < Parts(w)
  {
    var n := |Chunks(w.data)|;
    if j < n then Chunks(w.data)[j]
    else if j == n then ManifestBytes(ManifestOf(w))
    else CommitBytes(CommitOf(w))
  }

  function PartHeader(w: Draft, j: nat): Header
    requires j < Parts(w)
  {
    var n := |Chunks(w.data)|;
    var kind := if j < n then Chunk else if j == n then Manifest else Commit;
    Header(FORMAT_VERSION_V1, w.store, w.file, w.generation, kind, if j < n then j else 0, |PartPlain(w, j)|)
  }

  function PartRecord(w: Draft, tape: seq<Seal>, j: nat): Record
    requires j < Parts(w) == |tape|
  {
    Record(PartHeader(w, j), tape[j].nonce, tape[j].ciphertext)
  }

  /** The cipher is AES-GCM: 12-byte nonces, a 16-byte tag, and decryption is a function. */
  ghost predicate ValidTape(w: Draft, log: Log, tape: seq<Seal>) {
    && |tape| == Parts(w)
    && forall j {:trigger tape[j]} :: 0 <= j < |tape| ==>
        && |tape[j].nonce| == NONCE_LENGTH
        && |tape[j].ciphertext| == |PartPlain(w, j)| + TAG_LENGTH
        && (PartRecord(w, tape, j) in log ==> log[PartRecord(w, tape, j)] == PartPlain(w, j))
  }

  function SealParts(w: Draft, log: Log, tape: seq<Seal>, count: nat): Log
    requires count <= Parts(w) == |tape|
  {
    if count == 0 then log
    else SealParts(w, log, tape, count - 1)[PartRecord(w, tape, count - 1) := PartPlain(w, count - 1)]
  }

  lemma {:induction false} SealPartsExtends(w: Draft, log: Log, tape: seq<Seal>, count: nat)
    requires ValidTape(w, log, tape) && count <= Parts(w)
    ensures Extends(log, SealParts(w, log, tape, count))
    ensures forall j :: 0 <= j < count ==>
      PartRecord(w, tape, j) in SealParts(w, log, tape, count) &&
      SealParts(w, log, tape, count)[PartRecord(w, tape, j)] == PartPlain(w, j)
  {
    hide PartHeader, PartPlain;
    if count != 0 {
      SealPartsExtends(w, log, tape, count - 1);
      forall j | 0 <= j < count - 1
        ensures PartRecord(w, tape, j).header != PartRecord(w, tape, count - 1).header
      {
        DistinctHeaders(w, j, count - 1);
      }
    }
  }

  lemma DistinctHeaders(w: Draft, i: nat, j: nat)
    requires i < j < Parts(w)
    ensures PartHeader(w, i) != PartHeader(w, j)
  {
  }

  /** Sealing part `j` is accepted: its nonce is new and its record fits the size limit. */
  predicate Accepted(tape: seq<Seal>, j: nat)
    requires j < |tape|
  {
    |tape[j].ciphertext| <= MAX_CIPHERTEXT && forall i :: 0 <= i < j ==> tape[i].nonce != tape[j].nonce
  }

  /** How many parts are written before sealing stops. */
  function AcceptedFrom(tape: seq<Seal>, m: nat): (n: nat)
    requires m <= |tape|
    ensures m <= n <= |tape|
    ensures forall j :: m <= j < n ==> Accepted(tape, j)
    ensures n < |tape| ==> !Accepted(tape, n)
    decreases |tape| - m
  {
    if m < |tape| && Accepted(tape, m) then AcceptedFrom(tape, m + 1) else m
  }

  // ----- the filesystem calls of flush_file -----

  function WriteParts(w: Draft, tape: seq<Seal>, count: nat): (ops: seq<Op>)
    requires count <= Parts(w) == |tape|
    ensures |ops| == count
  {
    seq(count, j requires 0 <= j < count => Write(PartPath(w.file, w.generation, PartEntry(w, j)),
        Sealed(PartRecord(w, tape, j))))
  }

  function SwapOps(file: Bytes, g: nat, commit: Record, replacing: bool): seq<Op> {
    var tmp := Write(SelectedTmp(file, g), Sealed(commit));
    var publish := Rename(SelectedTmp(file, g), Selected(file));
    var flush := Write(Marker(file), Opaque);
    if replacing
    then [Copy(Selected(file), Previous(file)), flush, tmp, Remove(Selected(file)), publish, flush]
    else [tmp, publish, flush]
  }

  function FlushOps(d: Disk, w: Draft, tape: seq<Seal>): seq<Op>
    requires |tape| == Parts(w)
  {
    var accepted := AcceptedFrom(tape, 0);
    [Write(PartPath(w.file, w.generation, DirectoryItself), Opaque)]
    + WriteParts(w, tape, accepted)
    + if accepted == Parts(w)
      then SwapOps(w.file, w.generation, PartRecord(w, tape, Parts(w) - 1), Selected(w.file) in d)
      else []
  }

  /** The publishing rename is the last call but one; everything from there on is the new content. */
  predicate Published(d: Disk, w: Draft, tape: seq<Seal>, k: nat)
    requires |tape| == Parts(w)
  {
    AcceptedFrom(tape, 0) == Parts(w) && k + 1 >= |FlushOps(d, w, tape)|
  }

  /** Parts sealed by the time `k` filesystem calls have been made. */
  function SealedBy(tape: seq<Seal>, k: nat): (n: nat)
    ensures n <= |tape|
  {
    var accepted := AcceptedFrom(tape, 0);
    var reached := if accepted < |tape| then accepted + 1 else accepted;
    if k < reached then k else reached
  }

  /** The backing store after the first `k` calls of a flush. */
  function FlushedBy(b: Backing, w: Draft, tape: seq<Seal>, k: nat): Backing
    requires |tape| == Parts(w) && k <= |FlushOps(b.disk, w, tape)|
  {
    Backing(b.store, SealParts(w, b.log, tape, SealedBy(tape, k)), Run(b.disk, FlushOps(b.disk, w, tape)[..k]))
  }

  // ----- a complete generation reads back -----

  ghost predicate Installed(c: Backing, w: Draft, tape: seq<Seal>)
    requires |tape| == Parts(w)
  {
    && c.store == w.store
    && forall j {:trigger PartEntry(w, j)} {:trigger PartRecord(w, tape, j)} :: 0 <= j < Parts(w) ==>
        && PartPath(w.file, w.generation, PartEntry(w, j)) in c.disk
        && c.disk[PartPath(w.file, w.generation, PartEntry(w, j))] == Sealed(PartRecord(w, tape, j))
        && PartRecord(w, tape, j) in c.log
        && c.log[PartRecord(w, tape, j)] == PartPlain(w, j)
  }

  ghost predicate DistinctNonces(tape: seq<Seal>) {
    forall i, j :: 0 <= i < j < |tape| ==> tape[i].nonce != tape[j].nonce
  }

  lemma {:induction false} InstalledChunksRead(c: Backing, w: Draft, tape: seq<Seal>, i: nat, nonces: set<Bytes>)
    requires |tape| == Parts(w) && Installed(c, w, tape) && DistinctNonces(tape)
    requires i <= |Chunks(w.data)|
    requires forall j :: i <= j < |Chunks(w.data)| ==> tape[j].nonce !in nonces
    ensures ReadChunks(c, w.file, w.generation, Lengths(w.data), i, nonces) == Ok(Concat(Chunks(w.data)[i..]))
    decreases |Chunks(w.data)| - i
  {
    var chunks := Chunks(w.data);
    if i < |chunks| {
      assert PartEntry(w, i) == ChunkRec(i);
      var r := PartRecord(w, tape, i);
      assert ReadChunk(c, w.file, w.generation, Lengths(w.data)[i], i, nonces) == Ok((r, chunks[i]));
      InstalledChunksRead(c, w, tape, i + 1, nonces + {r.nonce});
      assert chunks[i..][1..] == chunks[i + 1..];
    }
  }

  lemma InstalledManifestReads(c: Backing, w: Draft, tape: seq<Seal>)
    requires |tape| == Parts(w) && Installed(c, w, tape) && ValidDraft(w)
    requires |ManifestBytes(ManifestOf(w))| + TAG_LENGTH <= MAX_CIPHERTEXT
    ensures ReadManifest(c, w.file, w.generation) == Ok((PartRecord(w, tape, Parts(w) - 2), ManifestOf(w)))
  {
    var j := Parts(w) - 2;
    assert PartEntry(w, j) == ManifestRec;
    PublishedManifestDecodes(ManifestOf(w), |ManifestBytes(ManifestOf(w))| + TAG_LENGTH);
  }

  lemma InstalledCommitReads(c: Backing, w: Draft, tape: seq<Seal>, p: Path)
    requires |tape| == Parts(w) && Installed(c, w, tape) && ValidDraft(w)
    requires p in c.disk && c.disk[p] == Sealed(PartRecord(w, tape, Parts(w) - 1))
    ensures ReadCommit(c, w.file, p) == Ok((PartRecord(w, tape, Parts(w) - 1), CommitOf(w)))
    ensures CheckCommitted(c, w.file, CommitOf(w)) == Ok(())
  {
    var j := Parts(w) - 1;
    assert PartEntry(w, j) == CommitRec;
    DecodeEncodeCommit(CommitOf(w));
  }

  lemma InstalledReads(c: Backing, w: Draft, tape: seq<Seal>, p: Path)
    requires |tape| == Parts(w) && Installed(c, w, tape) && ValidDraft(w) && DistinctNonces(tape)
    requires |ManifestBytes(ManifestOf(w))| + TAG_LENGTH <= MAX_CIPHERTEXT
    requires p in c.disk && c.disk[p] == Sealed(PartRecord(w, tape, Parts(w) - 1))
    ensures ReadPointer(c, w.file, p) == Ok(w.data)
    ensures CommitGeneration(c, w.file, p) == Ok(w.generation)
  {
    hide Installed, ReadCommit, ReadManifest, ReadChunks, CheckCommitted, ManifestBytes, PartPlain, Chunks;
    var n := |Chunks(w.data)|;
    InstalledCommitReads(c, w, tape, p);
    InstalledManifestReads(c, w, tape);
    InstalledChunksRead(c, w, tape, 0, {tape[n + 1].nonce, tape[n].nonce});
    ConcatChunks(w.data);
    assert Chunks(w.data)[0..] == Chunks(w.data);
  }
}
