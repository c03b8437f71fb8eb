/** The persisted formats of the encrypted store: the fixed-field AEAD record, the
    manifest and the commit payload, and the additional authenticated data that binds
    a record's header to its ciphertext. */
module StorageFormat {
  import opened Wire

  const FORMAT_VERSION_V1: nat := 1
  const NONCE_LENGTH: nat := 12
  const TAG_LENGTH: nat := 16
  const CHUNK_SIZE: nat := 4 * 1024 * 1024
  const MAX_CIPHERTEXT: nat := 4 * 1024 * 1024 + 64 * 1024
  const MAX_CHUNKS: nat := 1_000_000
  const MAGIC: Bytes := Ascii("DLP1")
  const FORMAT_ID_V1: Bytes := Ascii("dlp-store/aes256gcm-4m/v1")

  datatype StorageError =
    | IntegrityFailure | RecoveryRequired | NotFound | IoFailure | AlreadyExists | SharingViolation | DeletePending

  datatype RecordKind = Chunk | Manifest | Commit

  function KindByte(kind: RecordKind): byte {
    match kind case Chunk => 1 case Manifest => 2 case Commit => 3
  }

  function KindOf(b: byte): Option<RecordKind> {
    if b == 1 then Some(Chunk) else if b == 2 then Some(Manifest) else if b == 3 then Some(Commit) else None
  }

  /** The seven header fields of a record; the same fields form its AAD. */
  datatype Header = Header(
    formatVersion: nat,
    storeId: Bytes,
    fileId: Bytes,
    generation: nat,
    kind: RecordKind,
    chunkIndex: nat,
    plaintextLength: nat)

  datatype Record = Record(header: Header, nonce: Bytes, ciphertext: Bytes)

  datatype ManifestData = ManifestData(generation: nat, fileId: Bytes, logicalLength: nat, chunkLengths: seq<nat>)

  datatype CommitData = CommitData(generation: nat, fileId: Bytes)

  predicate IdByte(b: byte) {
    48 <= b <= 57 || 65 <= b <= 90 || 97 <= b <= 122 || b == 45 || b == 95
  }

  /** What `Cursor::text` accepts, which is also what the typed identifiers accept. */
  predicate ValidId(id: Bytes) {
    1 <= |id| <= 128 && forall i :: 0 <= i < |id| ==> IdByte(id[i])
  }

  predicate InRange(h: Header) {
    && h.formatVersion < U16
    && |h.storeId| < U16
    && |h.fileId| < U16
    && h.generation < U64
    && h.chunkIndex < U64
    && h.plaintextLength < U64
  }

  predicate ValidHeader(h: Header) {
    InRange(h) && ValidId(h.storeId) && ValidId(h.fileId)
  }

  predicate ValidRecord(r: Record) {
    ValidHeader(r.header) && |r.nonce| == NONCE_LENGTH && |r.ciphertext| <= MAX_CIPHERTEXT
  }

  // ----- headers -----

  function NamesThen(h: Header, tail: Bytes): Bytes {
    Le(h.formatVersion, 2) + Text16Then(h.storeId, Text16Then(h.fileId, tail))
  }

  function SlotThen(h: Header, tail: Bytes): Bytes {
    Le(h.generation, 8) + ([KindByte(h.kind)] + (Le(h.chunkIndex, 8) + (Le(h.plaintextLength, 8) + tail)))
  }

  /** Header fields in wire order, followed by `tail`. */
  function HeaderThen(h: Header, tail: Bytes): Bytes {
    NamesThen(h, SlotThen(h, tail))
  }

  function TakeNames(s: Bytes): Parsed<(nat, Bytes, Bytes)> {
    var (formatVersion, s1) :- TakeLe(s, 2);
    var (storeId, s2) :- TakeText16(s1);
    var (fileId, s3) :- TakeText16(s2);
    Parsed((formatVersion, storeId, fileId), s3)
  }

  function TakeKind(s: Bytes): Parsed<RecordKind> {
    var (raw, rest) :- Take(s, 1);
    if KindOf(raw[0]).Some? then Parsed(KindOf(raw[0]).value, rest) else NoParse
  }

  function TakeSlot(s: Bytes): Parsed<(nat, RecordKind, nat, nat)> {
    var (generation, s1) :- TakeLe(s, 8);
    var (kind, s2) :- TakeKind(s1);
    var (chunkIndex, s3) :- TakeLe(s2, 8);
    var (plaintextLength, s4) :- TakeLe(s3, 8);
    Parsed((generation, kind, chunkIndex, plaintextLength), s4)
  }

  function TakeHeader(s: Bytes): Parsed<Header> {
    var (names, s1) :- TakeNames(s);
    var (slot, s2) :- TakeSlot(s1);
    Parsed(Header(names.0, names.1, names.2, slot.0, slot.1, slot.2, slot.3), s2)
  }

  lemma TakeNamesAppend(h: Header, tail: Bytes)
    requires InRange(h)
    ensures TakeNames(NamesThen(h, tail)) == Parsed((h.formatVersion, h.storeId, h.fileId), tail)
  {
    Widths();
    TakeLeAppend(h.formatVersion, 2, Text16Then(h.storeId, Text16Then(h.fileId, tail)));
    TakeText16Append(h.storeId, Text16Then(h.fileId, tail));
    TakeText16Append(h.fileId, tail);
  }

  lemma TakeKindAppend(kind: RecordKind, tail: Bytes)
    ensures TakeKind([KindByte(kind)] + tail) == Parsed(kind, tail)
  {
    TakeAppend([KindByte(kind)], tail);
  }

  lemma TakeKindSound(s: Bytes)
    ensures var p := TakeKind(s); p.Parsed? ==> s == [KindByte(p.value)] + p.rest
  {
  }

  lemma TakeSlotAppend(h: Header, tail: Bytes)
    requires InRange(h)
    ensures TakeSlot(SlotThen(h, tail)) == Parsed((h.generation, h.kind, h.chunkIndex, h.plaintextLength), tail)
  {
    Widths();
    var t3 := Le(h.plaintextLength, 8) + tail;
    var t2 := Le(h.chunkIndex, 8) + t3;
    TakeLeAppend(h.generation, 8, [KindByte(h.kind)] + t2);
    TakeKindAppend(h.kind, t2);
    TakeLeAppend(h.chunkIndex, 8, t3);
    TakeLeAppend(h.plaintextLength, 8, tail);
  }

  lemma TakeHeaderAppend(h: Header, tail: Bytes)
    requires InRange(h)
    ensures TakeHeader(HeaderThen(h, tail)) == Parsed(h, tail)
  {
    TakeNamesAppend(h, SlotThen(h, tail));
    TakeSlotAppend(h, tail);
  }

  lemma TakeNamesSound(s: Bytes, h: Header)
    requires TakeNames(s).Parsed? && TakeNames(s).value == (h.formatVersion, h.storeId, h.fileId)
    ensures h.formatVersion < U16 && |h.storeId| < U16 && |h.fileId| < U16
    ensures s == NamesThen(h, TakeNames(s).rest)
  {
    Widths();
    TakeLeSound(s, 2);
    var s1 := TakeLe(s, 2).rest;
    TakeText16Sound(s1);
    TakeText16Sound(TakeText16(s1).rest);
  }

  lemma TakeSlotSound(s: Bytes, h: Header)
    requires TakeSlot(s).Parsed?
    requires TakeSlot(s).value == (h.generation, h.kind, h.chunkIndex, h.plaintextLength)
    ensures h.generation < U64 && h.chunkIndex < U64 && h.plaintextLength < U64
    ensures s == SlotThen(h, TakeSlot(s).rest)
  {
    Widths();
    TakeLeSound(s, 8);
    var s1 := TakeLe(s, 8).rest;
    TakeKindSound(s1);
    var s2 := TakeKind(s1).rest;
    TakeLeSound(s2, 8);
    TakeLeSound(TakeLe(s2, 8).rest, 8);
  }

  lemma TakeHeaderSound(s: Bytes)
    ensures var p := TakeHeader(s); p.Parsed? ==> InRange(p.value) && s == HeaderThen(p.value, p.rest)
  {
    var p := TakeHeader(s);
    if p.Parsed? {
      TakeNamesSound(s, p.value);
      TakeSlotSound(TakeNames(s).rest, p.value);
    }
  }

  // ----- additional authenticated data -----

  function AadBytes(h: Header): Bytes {
    FORMAT_ID_V1 + HeaderThen(h, [])
  }

  /** The authenticated bytes determine all seven header fields. */
  lemma AadInjective(a: Header, b: Header)
    requires InRange(a) && InRange(b) && AadBytes(a) == AadBytes(b)
    ensures a == b
  {
    TakeAppend(FORMAT_ID_V1, HeaderThen(a, []));
    TakeAppend(FORMAT_ID_V1, HeaderThen(b, []));
    TakeHeaderAppend(a, []);
    TakeHeaderAppend(b, []);
  }

  // ----- records -----

  function SealedBytes(nonce: Bytes, ciphertext: Bytes): Bytes {
    nonce + (Le(|ciphertext|, 8) + ciphertext)
  }

  function RecordBytes(r: Record): Bytes {
    MAGIC + HeaderThen(r.header, SealedBytes(r.nonce, r.ciphertext))
  }

  function EncodeRecord(r: Record): Result<Bytes, StorageError> {
    if |r.header.storeId| >= U16 || |r.header.fileId| >= U16 || |r.ciphertext| > MAX_CIPHERTEXT
    then Err(IntegrityFailure)
    else Ok(RecordBytes(r))
  }

  function TakeSealed(s: Bytes): Parsed<(Bytes, Bytes)> {
    var (nonce, s1) :- Take(s, NONCE_LENGTH);
    var (length, s2) :- TakeLe(s1, 8);
    if length > MAX_CIPHERTEXT || |s2| != length then NoParse else Parsed((nonce, s2), [])
  }

  function ParseRecord(s: Bytes): Parsed<Record> {
    var (magic, s1) :- Take(s, 4);
    if magic != MAGIC then NoParse else
    var (header, s2) :- TakeHeader(s1);
    if !ValidId(header.storeId) || !ValidId(header.fileId) then NoParse else
    var (body, s3) :- TakeSealed(s2);
    Parsed(Record(header, body.0, body.1), s3)
  }

  function DecodeRecord(s: Bytes): Result<Record, StorageError> {
    var p := ParseRecord(s);
    if p.Parsed? then Ok(p.value) else Err(IntegrityFailure)
  }

  lemma TakeSealedAppend(nonce: Bytes, ciphertext: Bytes)
    requires |nonce| == NONCE_LENGTH && |ciphertext| <= MAX_CIPHERTEXT
    ensures TakeSealed(SealedBytes(nonce, ciphertext)) == Parsed((nonce, ciphertext), [])
  {
    Widths();
    TakeAppend(nonce, Le(|ciphertext|, 8) + ciphertext);
    TakeLeAppend(|ciphertext|, 8, ciphertext);
  }

  /** Decoding inverts encoding on every record whose identifiers are valid. */
  lemma DecodeEncodeRecord(r: Record)
    requires ValidRecord(r)
    ensures EncodeRecord(r).Ok? && DecodeRecord(EncodeRecord(r).value) == Ok(r)
  {
    var body := SealedBytes(r.nonce, r.ciphertext);
    TakeAppend(MAGIC, HeaderThen(r.header, body));
    TakeHeaderAppend(r.header, body);
    TakeSealedAppend(r.nonce, r.ciphertext);
  }

  /** Every accepted byte string is the encoding of the record it yields. */
  lemma EncodeDecodeRecord(s: Bytes)
    requires DecodeRecord(s).Ok?
    ensures ValidRecord(DecodeRecord(s).value)
    ensures EncodeRecord(DecodeRecord(s).value) == Ok(s)
  {
    var r := DecodeRecord(s).value;
    var s1 := Take(s, 4).rest;
    TakeHeaderSound(s1);
    var s2 := TakeHeader(s1).rest;
    TakeLeSound(Take(s2, NONCE_LENGTH).rest, 8);
    assert s2 == SealedBytes(r.nonce, r.ciphertext);
  }

  // ----- manifests -----

  function LengthsBytes(lengths: seq<nat>): Bytes {
    if lengths == [] then [] else Le(lengths[0], 8) + LengthsBytes(lengths[1..])
  }

  const MANIFEST_PREFIX: Bytes := FORMAT_ID_V1 + [0]

  function CountedBytes(lengths: seq<nat>): Bytes {
    Le(|lengths| % U32, 4) + LengthsBytes(lengths)
  }

  function SizesThen(m: ManifestData): Bytes {
    Le(m.logicalLength, 8) + CountedBytes(m.chunkLengths)
  }

  function ManifestBytes(m: ManifestData): Bytes {
    MANIFEST_PREFIX + (Le(m.generation, 8) + Text16Then(m.fileId, SizesThen(m)))
  }

  predicate ValidManifest(m: ManifestData) {
    && m.generation < U64
    && ValidId(m.fileId)
    && m.logicalLength < U64
    && |m.chunkLengths| <= MAX_CHUNKS
    && forall i :: 0 <= i < |m.chunkLengths| ==> m.chunkLengths[i] < U64
  }

  function EncodeManifest(m: ManifestData): Result<Bytes, StorageError> {
    if |m.fileId| >= U16 || |m.chunkLengths| >= U32 then Err(IntegrityFailure) else Ok(ManifestBytes(m))
  }

  function TakeLengths(s: Bytes, count: nat): Parsed<seq<nat>> {
    if count == 0 then Parsed([], s)
    else
      var (first, s1) :- TakeLe(s, 8);
      var (others, s2) :- TakeLengths(s1, count - 1);
      Parsed([first] + others, s2)
  }

  function TakeCounted(s: Bytes): Parsed<seq<nat>> {
    var (count, s1) :- TakeLe(s, 4);
    if count > MAX_CHUNKS || |s1| != 8 * count then NoParse else TakeLengths(s1, count)
  }

  function TakeSizes(s: Bytes): Parsed<(nat, seq<nat>)> {
    var (logicalLength, s1) :- TakeLe(s, 8);
    var (lengths, s2) :- TakeCounted(s1);
    Parsed((logicalLength, lengths), s2)
  }

  function ParseManifest(s: Bytes): Parsed<ManifestData> {
    var (prefix, s0) :- Take(s, |MANIFEST_PREFIX|);
    if prefix != MANIFEST_PREFIX then NoParse else
    var (generation, s1) :- TakeLe(s0, 8);
    var (fileId, s2) :- TakeText16(s1);
    if !ValidId(fileId) then NoParse else
    var (sizes, s3) :- TakeSizes(s2);
    Parsed(ManifestData(generation, fileId, sizes.0, sizes.1), s3)
  }

  function DecodeManifest(s: Bytes): Result<ManifestData, StorageError> {
    var p := ParseManifest(s);
    if p.Parsed? then Ok(p.value) else Err(IntegrityFailure)
  }

  lemma {:induction false} LengthsBytesSize(lengths: seq<nat>)
    ensures |LengthsBytes(lengths)| == 8 * |lengths|
  {
    if lengths != [] { LengthsBytesSize(lengths[1..]); }
  }

  lemma {:induction false} TakeLengthsAppend(lengths: seq<nat>)
    requires forall i :: 0 <= i < |lengths| ==> lengths[i] < U64
    ensures TakeLengths(LengthsBytes(lengths), |lengths|) == Parsed(lengths, [])
  {
    if lengths != [] {
      Widths();
      TakeLeAppend(lengths[0], 8, LengthsBytes(lengths[1..]));
      TakeLengthsAppend(lengths[1..]);
      assert lengths == [lengths[0]] + lengths[1..];
    }
  }

  lemma {:induction false} TakeLengthsSound(s: Bytes, count: nat)
    requires |s| == 8 * count
    ensures var p := TakeLengths(s, count);
      && p.Parsed? && |p.value| == count && p.rest == [] && s == LengthsBytes(p.value)
      && forall i :: 0 <= i < count ==> p.value[i] < U64
  {
    if count != 0 {
      Widths();
      TakeLeSound(s, 8);
      TakeLengthsSound(s[8..], count - 1);
      var others := TakeLengths(s[8..], count - 1).value;
      assert ([LeValue(s[..8])] + others)[1..] == others;
    }
  }

  lemma TakeCountedAppend(lengths: seq<nat>)
    requires |lengths| <= MAX_CHUNKS
    requires forall i :: 0 <= i < |lengths| ==> lengths[i] < U64
    ensures TakeCounted(CountedBytes(lengths)) == Parsed(lengths, [])
  {
    hide TakeLe, Le, TakeLengths, LengthsBytes;
    Widths();
    LengthsBytesSize(lengths);
    TakeLeAppend(|lengths|, 4, LengthsBytes(lengths));
    TakeLengthsAppend(lengths);
  }

  lemma TakeCountedSound(s: Bytes)
    requires TakeCounted(s).Parsed?
    ensures var lengths := TakeCounted(s).value;
      && |lengths| <= MAX_CHUNKS
      && (forall i :: 0 <= i < |lengths| ==> lengths[i] < U64)
      && s == CountedBytes(lengths)
    ensures TakeCounted(s).rest == []
  {
    hide TakeLe, Le, TakeLengths, LengthsBytes;
    Widths();
    TakeLeSound(s, 4);
    TakeLengthsSound(TakeLe(s, 4).rest, TakeLe(s, 4).value);
  }

  lemma TakeSizesAppend(m: ManifestData)
    requires ValidManifest(m)
    ensures TakeSizes(SizesThen(m)) == Parsed((m.logicalLength, m.chunkLengths), [])
  {
    Widths();
    TakeLeAppend(m.logicalLength, 8, CountedBytes(m.chunkLengths));
    TakeCountedAppend(m.chunkLengths);
  }

  lemma TakeSizesSound(s: Bytes, m: ManifestData)
    requires TakeSizes(s).Parsed? && TakeSizes(s).value == (m.logicalLength, m.chunkLengths)
    ensures m.logicalLength < U64 && |m.chunkLengths| <= MAX_CHUNKS
    ensures forall i :: 0 <= i < |m.chunkLengths| ==> m.chunkLengths[i] < U64
    ensures s == SizesThen(m)
  {
    Widths();
    TakeLeSound(s, 8);
    TakeCountedSound(TakeLe(s, 8).rest);
  }

  lemma DecodeEncodeManifest(m: ManifestData)
    requires ValidManifest(m)
    ensures EncodeManifest(m).Ok? && DecodeManifest(EncodeManifest(m).value) == Ok(m)
  {
    Widths();
    var t1 := Text16Then(m.fileId, SizesThen(m));
    TakeAppend(MANIFEST_PREFIX, Le(m.generation, 8) + t1);
    TakeLeAppend(m.generation, 8, t1);
    TakeText16Append(m.fileId, SizesThen(m));
    TakeSizesAppend(m);
  }

  lemma EncodeDecodeManifest(s: Bytes)
    requires DecodeManifest(s).Ok?
    ensures ValidManifest(DecodeManifest(s).value)
    ensures EncodeManifest(DecodeManifest(s).value) == Ok(s)
  {
    Widths();
    var s0 := Take(s, |MANIFEST_PREFIX|).rest;
    TakeLeSound(s0, 8);
    var s1 := TakeLe(s0, 8).rest;
    TakeText16Sound(s1);
    TakeSizesSound(TakeText16(s1).rest, DecodeManifest(s).value);
  }

  /** The decoder's chunk limit never bites: a manifest whose sealed form still fits one
      record has far fewer chunks, so every manifest that can be published decodes. */
  lemma PublishedManifestDecodes(m: ManifestData, sealedLength: nat)
    requires m.generation < U64 && ValidId(m.fileId) && m.logicalLength < U64 && |m.chunkLengths| < U32
    requires forall i :: 0 <= i < |m.chunkLengths| ==> m.chunkLengths[i] < U64
    requires sealedLength == |ManifestBytes(m)| + TAG_LENGTH <= MAX_CIPHERTEXT
    ensures |m.chunkLengths| < MAX_CHUNKS
    ensures DecodeManifest(ManifestBytes(m)) == Ok(m)
  {
    LengthsBytesSize(m.chunkLengths);
    DecodeEncodeManifest(m);
  }

  // ----- commits -----

  function CommitBytes(c: CommitData): Bytes {
    Le(c.generation, 8) + Text16Then(c.fileId, [])
  }

  function EncodeCommit(c: CommitData): Result<Bytes, StorageError> {
    if |c.fileId| >= U16 then Err(IntegrityFailure) else Ok(CommitBytes(c))
  }

  function ParseCommit(s: Bytes): Parsed<CommitData> {
    var (generation, s1) :- TakeLe(s, 8);
    var (fileId, s2) :- TakeText16(s1);
    if !ValidId(fileId) || s2 != [] then NoParse else Parsed(CommitData(generation, fileId), s2)
  }

  function DecodeCommit(s: Bytes): Result<CommitData, StorageError> {
    var p := ParseCommit(s);
    if p.Parsed? then Ok(p.value) else Err(IntegrityFailure)
  }

  lemma DecodeEncodeCommit(c: CommitData)
    requires c.generation < U64 && ValidId(c.fileId)
    ensures EncodeCommit(c).Ok? && DecodeCommit(EncodeCommit(c).value) == Ok(c)
  {
    Widths();
    TakeLeAppend(c.generation, 8, Text16Then(c.fileId, []));
    TakeText16Append(c.fileId, []);
  }

  lemma EncodeDecodeCommit(s: Bytes)
    requires DecodeCommit(s).Ok?
    ensures var c := DecodeCommit(s).value; c.generation < U64 && ValidId(c.fileId) && EncodeCommit(c) == Ok(s)
  {
    Widths();
    TakeLeSound(s, 8);
    TakeText16Sound(TakeLe(s, 8).rest);
  }
}
