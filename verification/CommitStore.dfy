/** The crash-safe commit protocol of the encrypted store, over a disk whose filesystem calls
    are single steps. A file's generation (chunks, manifest, commit record) is written first;
    then `selected.commit` is swapped, with `previous.commit` kept as the only fallback.

    The disk is seen through the record decoder: an entry either holds a record or is opaque.
    StoreBytes proves that this view is exact for the byte-level disk and the real AAD. */
module CommitStore {
  import opened Wire
  import opened StorageFormat

  // ----- disk -----

  datatype Dir = Generation(number: nat) | Stray(name: string)

  datatype Entry = DirectoryItself | ChunkRec(index: nat) | ManifestRec | CommitRec | OtherEntry(name: string)

  datatype Path =
    | Selected(file: Bytes)
    | Previous(file: Bytes)
    | SelectedTmp(file: Bytes, generation: nat)
    | Marker(file: Bytes)
    | InGeneration(file: Bytes, dir: Dir, entry: Entry)

  datatype Content = Sealed(record: Record) | Opaque

  type Disk = map<Path, Content>

  datatype Op =
    | Write(path: Path, content: Content)
    | Copy(source: Path, target: Path)
    | Remove(path: Path)
    | Rename(source: Path, target: Path)

  /** One filesystem call. */
  function Exec(d: Disk, op: Op): Disk {
    match op
    case Write(path, content) => d[path := content]
    case Copy(source, target) => if source in d then d[target := d[source]] else d
    case Remove(path) => d - {path}
    case Rename(source, target) => if source in d then (d - {source})[target := d[source]] else d
  }

  function Run(d: Disk, ops: seq<Op>): Disk {
    if ops == [] then d else Exec(Run(d, ops[..|ops| - 1]), ops[|ops| - 1])
  }

  lemma {:induction false} RunAppend(d: Disk, a: seq<Op>, b: seq<Op>)
    ensures Run(d, a + b) == Run(Run(d, a), b)
  {
    if b == [] {
      assert a + b == a;
    } else {
      var b' := b[..|b| - 1];
      RunAppend(d, a, b');
      assert (a + b)[..|a + b| - 1] == a + b';
    }
  }

  // ----- the ideal cipher -----

  /** Everything sealed under the store key so far: a record opens exactly when its header,
      nonce and ciphertext were produced together, and then yields what was sealed. */
  type Log = map<Record, Bytes>

  datatype Backing = Backing(store: Bytes, log: Log, disk: Disk)

  function Open(log: Log, r: Record): Result<Bytes, StorageError> {
    if r.header.formatVersion == FORMAT_VERSION_V1 && r in log && |log[r]| == r.header.plaintextLength
    then Ok(log[r])
    else Err(IntegrityFailure)
  }

  // ----- reading -----

  function ReadRecord(d: Disk, p: Path): Result<Record, StorageError> {
    if p !in d then Err(NotFound)
    else match d[p]
      case Sealed(r) => Ok(r)
      case Opaque => Err(IntegrityFailure)
  }

  predicate HasIdentity(store: Bytes, r: Record, file: Bytes, kind: RecordKind, index: nat) {
    && r.header.formatVersion == FORMAT_VERSION_V1
    && r.header.storeId == store
    && r.header.fileId == file
    && r.header.kind == kind
    && r.header.chunkIndex == index
  }

  /** Reads, authenticates and decrypts one record of the file. */
  function ReadPart(b: Backing, file: Bytes, p: Path, kind: RecordKind, index: nat)
    : Result<(Record, Bytes), StorageError>
  {
    var r :- ReadRecord(b.disk, p);
    if !HasIdentity(b.store, r, file, kind, index) then Err(IntegrityFailure) else
    var plain :- Open(b.log, r);
    Ok((r, plain))
  }

  function ReadCommit(b: Backing, file: Bytes, p: Path): Result<(Record, CommitData), StorageError> {
    var (r, plain) :- ReadPart(b, file, p, Commit, 0);
    var commit :- DecodeCommit(plain);
    if commit.fileId != file then Err(IntegrityFailure) else Ok((r, commit))
  }

  function CommitGeneration(b: Backing, file: Bytes, p: Path): Result<nat, StorageError> {
    var (_, commit) :- ReadCommit(b, file, p);
    Ok(commit.generation)
  }

  function PartPath(file: Bytes, g: nat, entry: Entry): Path {
    InGeneration(file, Generation(g), entry)
  }

  function CheckCommitted(b: Backing, file: Bytes, commit: CommitData): Result<(), StorageError> {
    var (r, plain) :- ReadPart(b, file, PartPath(file, commit.generation, CommitRec), Commit, 0);
    if r.header.generation != commit.generation then Err(IntegrityFailure) else
    var committed :- DecodeCommit(plain);
    if committed != commit then Err(IntegrityFailure) else Ok(())
  }

  function ReadManifest(b: Backing, file: Bytes, g: nat): Result<(Record, ManifestData), StorageError> {
    var (r, plain) :- ReadPart(b, file, PartPath(file, g, ManifestRec), Manifest, 0);
    if r.header.generation != g then Err(IntegrityFailure) else
    var m :- DecodeManifest(plain);
    if m.fileId != file || m.generation != g then Err(IntegrityFailure) else Ok((r, m))
  }

  function ReadChunk(b: Backing, file: Bytes, g: nat, length: nat, i: nat, nonces: set<Bytes>)
    : Result<(Record, Bytes), StorageError>
  {
    if length > CHUNK_SIZE then Err(IntegrityFailure) else
    var r :- ReadRecord(b.disk, PartPath(file, g, ChunkRec(i)));
    if !HasIdentity(b.store, r, file, Chunk, i) then Err(IntegrityFailure) else
    if r.header.generation != g || r.header.plaintextLength != length then Err(IntegrityFailure) else
    if r.nonce in nonces then Err(IntegrityFailure) else
    var plain :- Open(b.log, r);
    Ok((r, plain))
  }

  function ReadChunks(b: Backing, file: Bytes, g: nat, lengths: seq<nat>, i: nat, nonces: set<Bytes>)
    : Result<Bytes, StorageError>
    requires i <= |lengths|
    decreases |lengths| - i
  {
    if i == |lengths| then Ok([]) else
    var (r, plain) :- ReadChunk(b, file, g, lengths[i], i, nonces);
    var rest :- ReadChunks(b, file, g, lengths, i + 1, nonces + {r.nonce});
    Ok(plain + rest)
  }

  /** Reads generation `commit.generation`, given the pointer's own nonce. */
  function ReadGeneration(b: Backing, file: Bytes, nonce: Bytes, commit: CommitData): Result<Bytes, StorageError> {
    var _ :- CheckCommitted(b, file, commit);
    var (r, m) :- ReadManifest(b, file, commit.generation);
    if r.nonce == nonce then Err(IntegrityFailure) else
    var out :- ReadChunks(b, file, commit.generation, m.chunkLengths, 0, {nonce, r.nonce});
    if |out| != m.logicalLength then Err(IntegrityFailure) else Ok(out)
  }

  function ReadPointer(b: Backing, file: Bytes, p: Path): Result<Bytes, StorageError> {
    var (r, commit) :- ReadCommit(b, file, p);
    ReadGeneration(b, file, r.nonce, commit)
  }

  function Read(b: Backing, file: Bytes): Result<Bytes, StorageError> {
    ReadPointer(b, file, Selected(file))
  }

  /** What the file durably holds: the selected pointer's content, else the previous one's. */
  function Committed(b: Backing, file: Bytes): Option<Bytes> {
    var p := if Selected(file) in b.disk then Selected(file) else Previous(file);
    match ReadPointer(b, file, p) case Ok(data) => Some(data) case Err(_) => None
  }

  /** Every pointer that exists names a complete, authentic generation. */
  predicate Sound(b: Backing, file: Bytes) {
    && (Selected(file) in b.disk ==> ReadPointer(b, file, Selected(file)).Ok?)
    && (Previous(file) in b.disk ==> ReadPointer(b, file, Previous(file)).Ok?)
  }

  /** Neither pointer names generation `g`. */
  predicate Unreferenced(b: Backing, file: Bytes, g: nat) {
    && CommitGeneration(b, file, Selected(file)) != Ok(g)
    && CommitGeneration(b, file, Previous(file)) != Ok(g)
  }

  // ----- framing -----

  ghost predicate Extends(log: Log, log': Log) {
    forall r :: r in log ==> r in log' && log'[r] == log[r]
  }

  ghost predicate SameAt(d: Disk, p: Path, d': Disk, q: Path) {
    (p in d <==> q in d') && (p in d ==> d[p] == d'[q])
  }

  ghost predicate SameGeneration(d: Disk, d': Disk, file: Bytes, g: nat) {
    forall e: Entry :: SameAt(d, PartPath(file, g, e), d', PartPath(file, g, e))
  }

  lemma ReadCommitFrame(a: Backing, b: Backing, file: Bytes, p: Path, q: Path)
    requires a.store == b.store && Extends(a.log, b.log) && SameAt(a.disk, p, b.disk, q)
    requires ReadCommit(a, file, p).Ok?
    ensures ReadCommit(b, file, q) == ReadCommit(a, file, p)
  {
  }

  lemma {:induction false} ReadChunksFrame(a: Backing, b: Backing, file: Bytes, g: nat, lengths: seq<nat>, i: nat,
      nonces: set<Bytes>)
    requires a.store == b.store && Extends(a.log, b.log) && SameGeneration(a.disk, b.disk, file, g)
    requires i <= |lengths| && ReadChunks(a, file, g, lengths, i, nonces).Ok?
    ensures ReadChunks(b, file, g, lengths, i, nonces) == ReadChunks(a, file, g, lengths, i, nonces)
    decreases |lengths| - i
  {
    if i < |lengths| {
      var part := ReadChunk(a, file, g, lengths[i], i, nonces);
      assert ReadChunk(b, file, g, lengths[i], i, nonces) == part;
      ReadChunksFrame(a, b, file, g, lengths, i + 1, nonces + {part.value.0.nonce});
    }
  }

  lemma ReadGenerationFrame(a: Backing, b: Backing, file: Bytes, nonce: Bytes, commit: CommitData)
    requires a.store == b.store && Extends(a.log, b.log) && SameGeneration(a.disk, b.disk, file, commit.generation)
    requires ReadGeneration(a, file, nonce, commit).Ok?
    ensures ReadGeneration(b, file, nonce, commit) == ReadGeneration(a, file, nonce, commit)
  {
    assert CheckCommitted(b, file, commit) == CheckCommitted(a, file, commit);
    var part := ReadManifest(a, file, commit.generation);
    assert ReadManifest(b, file, commit.generation) == part;
    ReadChunksFrame(a, b, file, commit.generation, part.value.1.chunkLengths, 0, {nonce, part.value.0.nonce});
  }

  /** A readable pointer reads the same after it is moved or copied, while its generation stays. */
  lemma ReadPointerFrame(a: Backing, b: Backing, file: Bytes, p: Path, q: Path)
    requires a.store == b.store && Extends(a.log, b.log) && SameAt(a.disk, p, b.disk, q)
    requires ReadPointer(a, file, p).Ok?
    requires SameGeneration(a.disk, b.disk, file, CommitGeneration(a, file, p).value)
    ensures ReadPointer(b, file, q) == ReadPointer(a, file, p)
    ensures CommitGeneration(b, file, q) == CommitGeneration(a, file, p)
  {
    ReadCommitFrame(a, b, file, p, q);
    var (r, commit) := ReadCommit(a, file, p).value;
    ReadGenerationFrame(a, b, file, r.nonce, commit);
  }
}
