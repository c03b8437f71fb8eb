/** The record-level store is exact for bytes: decoding commutes with every filesystem call, and
    a cipher keyed by AAD bytes, nonce and ciphertext opens exactly the records the log holds. */
module StoreBytes {
  import opened Wire
  import opened StorageFormat
  import opened CommitStore
  import opened Publish

  type ByteDisk = map<Path, Bytes>

  const MARKER_BYTES: Bytes := Ascii("v1")

  function Decoded(bytes: Bytes): Content {
    match DecodeRecord(bytes) case Ok(r) => Sealed(r) case Err(_) => Opaque
  }

  function View(d: ByteDisk): Disk {
    map p | p in d :: Decoded(d[p])
  }

  function ReadRecordBytes(d: ByteDisk, p: Path): Result<Record, StorageError> {
    if p !in d then Err(NotFound) else DecodeRecord(d[p])
  }

  /** A filesystem call on bytes: records are written encoded, markers as their literal bytes. */
  function ByteExec(d: ByteDisk, op: Op): ByteDisk {
    match op
    case Write(path, Sealed(r)) => d[path := RecordBytes(r)]
    case Write(path, Opaque) => d[path := MARKER_BYTES]
    case Copy(source, target) => if source in d then d[target := d[source]] else d
    case Remove(path) => d - {path}
    case Rename(source, target) => if source in d then (d - {source})[target := d[source]] else d
  }

  function ByteRun(d: ByteDisk, ops: seq<Op>): ByteDisk {
    if ops == [] then d else ByteExec(ByteRun(d, ops[..|ops| - 1]), ops[|ops| - 1])
  }

  predicate Encodable(op: Op) {
    op.Write? && op.content.Sealed? ==> ValidRecord(op.content.record)
  }

  lemma ReadRecordAgrees(d: ByteDisk, p: Path)
    ensures ReadRecord(View(d), p) == ReadRecordBytes(d, p)
  {
  }

  lemma WrittenContentDecodes(c: Content)
    requires c.Sealed? ==> ValidRecord(c.record)
    ensures Decoded(if c.Sealed? then RecordBytes(c.record) else MARKER_BYTES) == c
  {
    if c.Sealed? { DecodeEncodeRecord(c.record); }
  }

  lemma ExecAgrees(d: ByteDisk, op: Op)
    requires Encodable(op)
    ensures View(ByteExec(d, op)) == Exec(View(d), op)
  {
    if op.Write? {
      WrittenContentDecodes(op.content);
      var bytes := if op.content.Sealed? then RecordBytes(op.content.record) else MARKER_BYTES;
      assert ByteExec(d, op) == d[op.path := bytes];
      ViewUpdate(d, op.path, bytes);
    }
  }

  lemma ViewUpdate(d: ByteDisk, p: Path, bytes: Bytes)
    ensures View(d[p := bytes]) == View(d)[p := Decoded(bytes)]
  {
  }

  lemma {:induction false} RunAgrees(d: ByteDisk, ops: seq<Op>)
    requires forall i :: 0 <= i < |ops| ==> Encodable(ops[i])
    ensures View(ByteRun(d, ops)) == Run(View(d), ops)
  {
    if ops != [] {
      RunAgrees(d, ops[..|ops| - 1]);
      ExecAgrees(ByteRun(d, ops[..|ops| - 1]), ops[|ops| - 1]);
    }
  }

  lemma AcceptedPartIsValid(w: Draft, log: Log, tape: seq<Seal>, j: nat)
    requires ValidDraft(w) && ValidTape(w, log, tape) && j < Parts(w) && Accepted(tape, j)
    ensures ValidRecord(PartRecord(w, tape, j))
  {
    assert |tape[j].ciphertext| == |PartPlain(w, j)| + TAG_LENGTH;
  }

  /** Every record a flush writes encodes, so the byte-level flush has the modelled effect. */
  lemma FlushAgrees(d: ByteDisk, w: Draft, log: Log, tape: seq<Seal>, k: nat)
    requires ValidDraft(w) && ValidTape(w, log, tape) && k <= |FlushOps(View(d), w, tape)|
    ensures View(ByteRun(d, FlushOps(View(d), w, tape)[..k])) == Run(View(d), FlushOps(View(d), w, tape)[..k])
  {
    var ops := FlushOps(View(d), w, tape);
    forall j | 0 <= j < AcceptedFrom(tape, 0) ensures ValidRecord(PartRecord(w, tape, j)) {
      AcceptedPartIsValid(w, log, tape, j);
    }
    FlushOpsEncodable(View(d), w, tape);
    RunAgrees(d, ops[..k]);
  }

  lemma FlushOpsEncodable(d: Disk, w: Draft, tape: seq<Seal>)
    requires |tape| == Parts(w)
    requires forall j {:trigger PartRecord(w, tape, j)} ::
        0 <= j < AcceptedFrom(tape, 0) ==> ValidRecord(PartRecord(w, tape, j))
    ensures forall i :: 0 <= i < |FlushOps(d, w, tape)| ==> Encodable(FlushOps(d, w, tape)[i])
  {
    var accepted := AcceptedFrom(tape, 0);
    var ops := FlushOps(d, w, tape);
    forall i | 0 <= i < |ops| ensures Encodable(ops[i]) {
      if 1 <= i < 1 + accepted {
        assert ops[i] == WriteParts(w, tape, accepted)[i - 1];
      } else if i > accepted {
        assert ValidRecord(PartRecord(w, tape, Parts(w) - 1));
      }
    }
  }

  // ----- the cipher -----

  datatype CipherKey = CipherKey(aad: Bytes, nonce: Bytes, ciphertext: Bytes)

  type CipherLog = map<CipherKey, Bytes>

  function KeyOf(r: Record): CipherKey {
    CipherKey(AadBytes(r.header), r.nonce, r.ciphertext)
  }

  /** Decryption as the AEAD sees it: associated data, nonce and ciphertext. */
  function OpenBytes(cipher: CipherLog, r: Record): Result<Bytes, StorageError> {
    if r.header.formatVersion == FORMAT_VERSION_V1 && KeyOf(r) in cipher
        && |cipher[KeyOf(r)]| == r.header.plaintextLength
    then Ok(cipher[KeyOf(r)])
    else Err(IntegrityFailure)
  }

  ghost predicate Represents(log: Log, cipher: CipherLog) {
    forall r: Record :: InRange(r.header) ==>
      (r in log <==> KeyOf(r) in cipher) && (r in log ==> log[r] == cipher[KeyOf(r)])
  }

  lemma OpenAgrees(log: Log, cipher: CipherLog, r: Record)
    requires Represents(log, cipher) && InRange(r.header)
    ensures Open(log, r) == OpenBytes(cipher, r)
  {
  }

  /** Sealing keeps the two in step because the AAD bytes determine the header. */
  lemma SealAgrees(log: Log, cipher: CipherLog, r: Record, plain: Bytes)
    requires Represents(log, cipher) && InRange(r.header)
    ensures Represents(log[r := plain], cipher[KeyOf(r) := plain])
  {
    forall q: Record | InRange(q.header) && KeyOf(q) == KeyOf(r) ensures q == r {
      AadInjective(q.header, r.header);
    }
  }

  /** What the source does to read one record: decode the file's bytes, check its identity, decrypt. */
  function ReadPartBytes(store: Bytes, cipher: CipherLog, d: ByteDisk, file: Bytes, p: Path, kind: RecordKind,
      index: nat)
    : Result<(Record, Bytes), StorageError>
  {
    var r :- ReadRecordBytes(d, p);
    if !HasIdentity(store, r, file, kind, index) then Err(IntegrityFailure) else
    var plain :- OpenBytes(cipher, r);
    Ok((r, plain))
  }

  lemma ReadPartAgrees(b: Backing, cipher: CipherLog, d: ByteDisk, file: Bytes, p: Path, kind: RecordKind, index: nat)
    requires Represents(b.log, cipher) && b.disk == View(d)
    ensures ReadPart(b, file, p, kind, index) == ReadPartBytes(b.store, cipher, d, file, p, kind, index)
  {
    ReadRecordAgrees(d, p);
    if ReadRecordBytes(d, p).Ok? {
      EncodeDecodeRecord(d[p]);
      OpenAgrees(b.log, cipher, ReadRecordBytes(d, p).value);
    }
  }
}
