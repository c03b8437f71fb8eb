/** Configuration codecs: signed envelopes, the cache's bundle files and its pointer record. */
module ConfigFormat {
  import opened Wire
  import opened Utf8
  import StorageFormat

  const API_VERSION: nat := 1
  const SCHEMA_VERSION: nat := 1
  const WIRE_VERSION: byte := 1
  const MAX_FIELD: nat := 65536
  const PREFIX: Bytes := Ascii("dlp-configuration-envelope/v1") + [0]
  const POINTER_MAGIC: Bytes := Ascii("dlp-ptr1")
  const POINTER_SCHEMA: nat := 1

  /** SHA-256 as an unknown function with 32-byte results. */
  type Sha = f: Bytes -> Bytes | forall b :: |f(b)| == 32 witness (b: Bytes) => Be(0, 32)

  /** An envelope; its protocol and schema versions are 1 by construction. */
  datatype Envelope = Envelope(deviceId: Bytes, bundleVersion: Bytes, issuedAt: nat, payload: Bytes)

  datatype Signed = Signed(envelope: Envelope, keyId: Bytes, signature: Bytes)

  datatype ProtocolError = UnsupportedVersion(received: nat) | InvalidField

  datatype CacheError =
    | InvalidSignature | InvalidContentHash | UnsupportedSchema | WrongAudience | WrongKeyId
    | StaleVersion(received: nat, active: nat)
    | IoFailure | CorruptPointer | MissingBundle | InvalidWireFormat

  /** Device identifiers may hold dots, but not at either end and not two in a row. */
  predicate ValidDeviceId(id: Bytes) {
    && 1 <= |id| <= 128
    && (forall i :: 0 <= i < |id| ==> StorageFormat.IdByte(id[i]) || id[i] == 46)
    && id[0] != 46 && id[|id| - 1] != 46
    && (forall i :: 0 < i < |id| ==> !(id[i] == 46 && id[i - 1] == 46))
  }

  predicate ValidPayload(payload: Bytes) {
    ValidUtf8(payload) && 0 < |payload| <= MAX_FIELD
  }

  predicate ValidEnvelope(e: Envelope) {
    ValidDeviceId(e.deviceId) && StorageFormat.ValidId(e.bundleVersion) && e.issuedAt < U64 && ValidPayload(e.payload)
  }

  predicate ValidSigned(x: Signed) {
    && ValidEnvelope(x.envelope)
    && ValidUtf8(x.keyId) && 0 < |x.keyId| <= MAX_FIELD
    && 0 < |x.signature| < U32
  }

  // ----- the fields every encoding of an envelope shares -----

  function FieldsThen(e: Envelope, tail: Bytes): Bytes {
    Text32Then(e.deviceId, Text32Then(e.bundleVersion, Be(e.issuedAt, 8) + Text32Then(e.payload, tail)))
  }

  function TakeUtf8(s: Bytes): Parsed<Bytes> {
    var (text, rest) :- TakeText32(s);
    if ValidUtf8(text) then Parsed(text, rest) else NoParse
  }

  function TakeFields(s: Bytes): Parsed<Envelope> {
    var (device, s1) :- TakeUtf8(s);
    var (bundle, s2) :- TakeUtf8(s1);
    var (issued, s3) :- TakeBe(s2, 8);
    var (payload, rest) :- TakeUtf8(s3);
    Parsed(Envelope(device, bundle, issued, payload), rest)
  }

  lemma TakeUtf8Append(text: Bytes, tail: Bytes)
    requires ValidUtf8(text) && |text| < U32
    ensures TakeUtf8(Text32Then(text, tail)) == Parsed(text, tail)
  {
    TakeText32Append(text, tail);
  }

  lemma TakeUtf8Sound(s: Bytes)
    ensures var p := TakeUtf8(s);
        p.Parsed? ==> ValidUtf8(p.value) && |p.value| < U32 && s == Text32Then(p.value, p.rest)
  {
    TakeText32Sound(s);
  }

  lemma TakeFieldsAppend(e: Envelope, tail: Bytes)
    requires ValidUtf8(e.deviceId) && ValidUtf8(e.bundleVersion) && ValidUtf8(e.payload)
    requires |e.deviceId| < U32 && |e.bundleVersion| < U32 && |e.payload| < U32 && e.issuedAt < U64
    ensures TakeFields(FieldsThen(e, tail)) == Parsed(e, tail)
  {
    hide Text32Then, TakeUtf8, Be, TakeBe;
    Widths();
    TakeUtf8Append(e.deviceId, Text32Then(e.bundleVersion, Be(e.issuedAt, 8) + Text32Then(e.payload, tail)));
    TakeUtf8Append(e.bundleVersion, Be(e.issuedAt, 8) + Text32Then(e.payload, tail));
    TakeBeAppend(e.issuedAt, 8, Text32Then(e.payload, tail));
    TakeUtf8Append(e.payload, tail);
  }

  lemma TakeFieldsSound(s: Bytes)
    ensures var p := TakeFields(s);
            p.Parsed? ==> s == FieldsThen(p.value, p.rest) && p.value.issuedAt < U64 && ValidUtf8(p.value.payload)
  {
    hide Text32Then, TakeUtf8, Be, TakeBe;
    Widths();
    var p := TakeFields(s);
    if p.Parsed? {
      TakeUtf8Sound(s);
      var s1 := TakeUtf8(s).rest;
      TakeUtf8Sound(s1);
      var s2 := TakeUtf8(s1).rest;
      TakeBeSound(s2, 8);
      TakeUtf8Sound(TakeBe(s2, 8).rest);
    }
  }

  lemma {:induction false} AsciiIsUtf8(s: Bytes)
    requires forall i :: 0 <= i < |s| ==> s[i] < 128
    ensures ValidUtf8(s)
  {
    if s != [] { AsciiIsUtf8(s[1..]); }
  }

  lemma ValidEnvelopeIsText(e: Envelope)
    requires ValidEnvelope(e)
    ensures ValidUtf8(e.deviceId) && ValidUtf8(e.bundleVersion) && ValidUtf8(e.payload)
  {
    AsciiIsUtf8(e.deviceId);
    AsciiIsUtf8(e.bundleVersion);
  }

  // ----- canonical envelope bytes: the signature input -----

  function CanonicalBytes(e: Envelope): Bytes {
    PREFIX + (Be(API_VERSION, 2) + (Be(SCHEMA_VERSION, 2) + FieldsThen(e, [])))
  }

  /** The envelope constructor's checks, after the identifiers have been parsed. */
  function NewEnvelope(schema: nat, e: Envelope): Result<Envelope, ProtocolError> {
    if schema != SCHEMA_VERSION then Err(UnsupportedVersion(schema))
    else if 0 < |e.payload| <= MAX_FIELD then Ok(e)
    else Err(InvalidField)
  }

  /** The decoder up to, but without, its final comparison with the re-encoded envelope. */
  function DecodeEnvelope(s: Bytes): Result<Envelope, ProtocolError> {
    if !(PREFIX <= s) then Err(InvalidField) else
    match TakeBe(s[|PREFIX|..], 2) {
      case NoParse => Err(InvalidField)
      case Parsed(version, s1) =>
        if version != API_VERSION then Err(UnsupportedVersion(version)) else
        match TakeBe(s1, 2) {
          case NoParse => Err(InvalidField)
          case Parsed(schema, s2) =>
            match TakeFields(s2) {
              case NoParse => Err(InvalidField)
              case Parsed(e, rest) =>
                if rest != [] || !ValidDeviceId(e.deviceId) || !StorageFormat.ValidId(e.bundleVersion)
                    then Err(InvalidField)
                else NewEnvelope(schema, e)
            }
        }
    }
  }

  function FromCanonicalBytes(s: Bytes): Result<Envelope, ProtocolError> {
    var e :- DecodeEnvelope(s);
    if CanonicalBytes(e) == s then Ok(e) else Err(InvalidField)
  }

  lemma DecodeCanonicalBytes(e: Envelope)
    requires ValidEnvelope(e)
    ensures DecodeEnvelope(CanonicalBytes(e)) == Ok(e)
  {
    hide FieldsThen, TakeFields, Be, TakeBe;
    Widths();
    ValidEnvelopeIsText(e);
    var s2 := FieldsThen(e, []);
    var s1 := Be(SCHEMA_VERSION, 2) + s2;
    var s0 := Be(API_VERSION, 2) + s1;
    assert (PREFIX + s0)[|PREFIX|..] == s0;
    TakeBeAppend(API_VERSION, 2, s1);
    TakeBeAppend(SCHEMA_VERSION, 2, s2);
    TakeFieldsAppend(e, []);
  }

  /** Whatever the decoder accepts before its last check is already the canonical encoding: that check never fails. */
  lemma ReencodingNeverFails(s: Bytes)
    requires DecodeEnvelope(s).Ok?
    ensures var e := DecodeEnvelope(s).value; ValidEnvelope(e) && CanonicalBytes(e) == s
  {
    hide FieldsThen, TakeFields, Be, TakeBe;
    var s0 := s[|PREFIX|..];
    TakeBeSound(s0, 2);
    var s1 := TakeBe(s0, 2).rest;
    TakeBeSound(s1, 2);
    TakeFieldsSound(TakeBe(s1, 2).rest);
    assert s == PREFIX + s0;
  }

  /** The decoder accepts exactly the canonical bytes of valid envelopes, and inverts the encoder. */
  lemma EnvelopeCodec(s: Bytes, e: Envelope)
    ensures FromCanonicalBytes(s) == Ok(e) <==> ValidEnvelope(e) && CanonicalBytes(e) == s
  {
    hide CanonicalBytes, DecodeEnvelope;
    if DecodeEnvelope(s).Ok? { ReencodingNeverFails(s); }
    if ValidEnvelope(e) { DecodeCanonicalBytes(e); }
  }

  lemma CanonicalBytesInjective(a: Envelope, b: Envelope)
    requires ValidEnvelope(a) && ValidEnvelope(b) && CanonicalBytes(a) == CanonicalBytes(b)
    ensures a == b
  {
    hide CanonicalBytes, FromCanonicalBytes, ValidEnvelope;
    EnvelopeCodec(CanonicalBytes(a), a);
    EnvelopeCodec(CanonicalBytes(b), b);
  }

  // ----- bundle files -----

  function ContentDigest(x: Signed, sha: Sha): Bytes {
    sha(CanonicalBytes(x.envelope))
  }

  function SerializeSigned(x: Signed, sha: Sha): Bytes {
    [WIRE_VERSION] + (Be(API_VERSION, 2) + (Be(SCHEMA_VERSION, 2) +
      Text32Then(x.keyId, FieldsThen(x.envelope, Text32Then(x.signature, ContentDigest(x, sha))))))
  }

  datatype Body = Body(signed: Signed, digest: Bytes)

  function TakeBody(s: Bytes): Parsed<Body> {
    var (keyId, s1) :- TakeUtf8(s);
    var (envelope, s2) :- TakeFields(s1);
    var (signature, s3) :- TakeText32(s2);
    var (digest, rest) :- Take(s3, 32);
    Parsed(Body(Signed(envelope, keyId, signature), digest), rest)
  }

  function BodyThen(b: Body, tail: Bytes): Bytes {
    Text32Then(b.signed.keyId, FieldsThen(b.signed.envelope, Text32Then(b.signed.signature, b.digest + tail)))
  }

  function CheckBody(b: Body, sha: Sha): Result<Signed, CacheError> {
    var e := b.signed.envelope;
    if !ValidDeviceId(e.deviceId) || !StorageFormat.ValidId(e.bundleVersion) || !(0 < |e.payload| <= MAX_FIELD)
        then Err(InvalidWireFormat)
    else if ContentDigest(b.signed, sha) != b.digest then Err(InvalidContentHash)
    else if !(0 < |b.signed.keyId| <= MAX_FIELD) || b.signed.signature == [] then Err(InvalidWireFormat)
    else Ok(b.signed)
  }

  function DeserializeSigned(s: Bytes, sha: Sha): Result<Signed, CacheError> {
    if |s| < 1 || s[0] != WIRE_VERSION then Err(InvalidWireFormat) else
    match TakeBe(s[1..], 2) {
      case NoParse => Err(InvalidWireFormat)
      case Parsed(version, s1) =>
        if version != API_VERSION then Err(InvalidWireFormat) else
        match TakeBe(s1, 2) {
          case NoParse => Err(InvalidWireFormat)
          case Parsed(schema, s2) =>
            if schema != SCHEMA_VERSION then Err(UnsupportedSchema) else
            match TakeBody(s2) {
              case NoParse => Err(InvalidWireFormat)
              case Parsed(body, rest) => if rest != [] then Err(InvalidWireFormat) else CheckBody(body, sha)
            }
        }
    }
  }

  lemma TakeBodyAppend(x: Signed, digest: Bytes)
    requires ValidSigned(x) && |digest| == 32
    ensures TakeBody(BodyThen(Body(x, digest), [])) == Parsed(Body(x, digest), [])
  {
    hide Text32Then, TakeUtf8, FieldsThen, TakeFields, TakeText32;
    ValidEnvelopeIsText(x.envelope);
    var s3 := digest + [];
    var s2 := Text32Then(x.signature, s3);
    var s1 := FieldsThen(x.envelope, s2);
    TakeUtf8Append(x.keyId, s1);
    TakeFieldsAppend(x.envelope, s2);
    TakeText32Append(x.signature, s3);
    TakeAppend(digest, []);
  }

  lemma TakeBodySound(s: Bytes)
    ensures var p := TakeBody(s);
            p.Parsed? ==>
              && s == BodyThen(p.value, p.rest) && |p.value.digest| == 32
              && ValidUtf8(p.value.signed.keyId) && |p.value.signed.signature| < U32
              && p.value.signed.envelope.issuedAt < U64 && ValidUtf8(p.value.signed.envelope.payload)
  {
    hide Text32Then, TakeUtf8, FieldsThen, TakeFields, TakeText32;
    var p := TakeBody(s);
    if p.Parsed? {
      TakeUtf8Sound(s);
      var s1 := TakeUtf8(s).rest;
      TakeFieldsSound(s1);
      var s2 := TakeFields(s1).rest;
      TakeText32Sound(s2);
    }
  }

  lemma DeserializeSerialized(x: Signed, sha: Sha)
    requires ValidSigned(x)
    ensures DeserializeSigned(SerializeSigned(x, sha), sha) == Ok(x)
  {
    hide Text32Then, FieldsThen, TakeBody, Be, TakeBe, ContentDigest, ValidDeviceId;
    Widths();
    var digest := ContentDigest(x, sha);
    DigestLength(x, sha);
    var s2 := BodyThen(Body(x, digest), []);
    assert digest + [] == digest;
    var s1 := Be(SCHEMA_VERSION, 2) + s2;
    var s0 := Be(API_VERSION, 2) + s1;
    assert ([WIRE_VERSION] + s0)[1..] == s0;
    TakeBeAppend(API_VERSION, 2, s1);
    TakeBeAppend(SCHEMA_VERSION, 2, s2);
    TakeBodyAppend(x, digest);
  }

  lemma DigestLength(x: Signed, sha: Sha)
    ensures |ContentDigest(x, sha)| == 32
  {
  }

  lemma SerializeDeserialized(s: Bytes, sha: Sha)
    requires DeserializeSigned(s, sha).Ok?
    ensures var x := DeserializeSigned(s, sha).value; ValidSigned(x) && SerializeSigned(x, sha) == s
  {
    hide Text32Then, FieldsThen, TakeBody, Be, TakeBe, ContentDigest, ValidDeviceId;
    TakeBeSound(s[1..], 2);
    var s1 := TakeBe(s[1..], 2).rest;
    TakeBeSound(s1, 2);
    var s2 := TakeBe(s1, 2).rest;
    TakeBodySound(s2);
    var b := TakeBody(s2).value;
    assert b.digest + [] == b.digest;
    assert s == [s[0]] + s[1..];
  }

  /** The bundle decoder accepts a byte string exactly when it is the serialization of the valid bundle it returns. */
  lemma BundleCodec(s: Bytes, x: Signed, sha: Sha)
    ensures DeserializeSigned(s, sha) == Ok(x) <==> ValidSigned(x) && s == SerializeSigned(x, sha)
  {
    hide SerializeSigned, DeserializeSigned, ValidSigned;
    if DeserializeSigned(s, sha).Ok? { SerializeDeserialized(s, sha); }
    if ValidSigned(x) { DeserializeSerialized(x, sha); }
  }

  // ----- the pointer record -----

  datatype Slot = Slot(digest: Bytes, version: nat)

  /** The selected current bundle and the last known good one. */
  datatype Pointers = Pointers(current: Option<Slot>, lkg: Option<Slot>)

  const NO_POINTERS := Pointers(None, None)

  predicate ValidSlot(slot: Option<Slot>) {
    slot.Some? ==> |slot.value.digest| == 32 && slot.value.version < U64
  }

  predicate ValidPointers(p: Pointers) {
    ValidSlot(p.current) && ValidSlot(p.lkg)
  }

  function SlotThen(slot: Option<Slot>, tail: Bytes): Bytes {
    match slot
    case None => [0] + tail
    case Some(x) => [1] + (x.digest + (Be(x.version, 8) + tail))
  }

  function SerializePointers(p: Pointers, generation: nat): Bytes {
    POINTER_MAGIC + (Be(POINTER_SCHEMA, 8) + (Be(generation, 8) + SlotThen(p.current, SlotThen(p.lkg, []))))
  }

  /** A missing version is read as zero, and nothing is consumed. */
  function TakeVersion(s: Bytes): (nat, Bytes) {
    match TakeBe(s, 8) case NoParse => (0, s) case Parsed(v, rest) => (v, rest)
  }

  function TakeSlot(s: Bytes): Result<(Option<Slot>, Bytes), CacheError> {
    if s == [] then Err(InvalidWireFormat)
    else if s[0] == 0 then Ok((None, s[1..]))
    else if s[0] != 1 then Err(CorruptPointer)
    else match Take(s[1..], 32)
      case NoParse => Err(InvalidWireFormat)
      case Parsed(digest, rest) => var (version, after) := TakeVersion(rest); Ok((Some(Slot(digest, version)), after))
  }

  function TakePointers(s: Bytes): Result<Pointers, CacheError> {
    var first :- TakeSlot(s);
    var second :- TakeSlot(first.1);
    if second.1 == [] then Ok(Pointers(first.0, second.0)) else Err(InvalidWireFormat)
  }

  function DeserializePointers(s: Bytes): Result<Pointers, CacheError> {
    match Take(s, 8) {
      case NoParse => Err(InvalidWireFormat)
      case Parsed(magic, s1) =>
        if magic != POINTER_MAGIC then Err(CorruptPointer) else
        match TakeBe(s1, 8) {
          case NoParse => Err(InvalidWireFormat)
          case Parsed(schema, s2) =>
            if schema != POINTER_SCHEMA then Err(CorruptPointer) else
            match TakeBe(s2, 8) {
              case NoParse => Err(InvalidWireFormat)
              case Parsed(_, s3) => TakePointers(s3)
            }
        }
    }
  }

  lemma TakeSlotAppend(slot: Option<Slot>, tail: Bytes)
    requires ValidSlot(slot)
    ensures TakeSlot(SlotThen(slot, tail)) == Ok((slot, tail))
  {
    Widths();
    if slot.Some? {
      var x := slot.value;
      var rest := Be(x.version, 8) + tail;
      assert SlotThen(slot, tail)[1..] == x.digest + rest;
      TakeAppend(x.digest, rest);
      TakeBeAppend(x.version, 8, tail);
    } else {
      assert SlotThen(slot, tail)[1..] == tail;
    }
  }

  /** The pointer record round-trips. */
  lemma DeserializeSerializedPointers(p: Pointers, generation: nat)
    requires ValidPointers(p) && generation < U64
    ensures DeserializePointers(SerializePointers(p, generation)) == Ok(p)
  {
    hide SlotThen, TakeSlot, Be, TakeBe;
    Widths();
    var s3 := SlotThen(p.current, SlotThen(p.lkg, []));
    var s2 := Be(generation, 8) + s3;
    var s1 := Be(POINTER_SCHEMA, 8) + s2;
    TakeAppend(POINTER_MAGIC, s1);
    TakeBeAppend(POINTER_SCHEMA, 8, s2);
    TakeBeAppend(generation, 8, s3);
    TakeSlotAppend(p.current, SlotThen(p.lkg, []));
    TakeSlotAppend(p.lkg, []);
  }

  function SlotSize(slot: Option<Slot>): nat {
    if slot.Some? then 41 else 1
  }

  lemma TakeSlotSound(s: Bytes)
    requires TakeSlot(s).Ok?
    ensures var (slot, rest) := TakeSlot(s).value;
            && ValidSlot(slot) && |rest| + SlotSize(slot) >= |s|
            && (s == SlotThen(slot, rest) <==> |rest| + SlotSize(slot) == |s|)
  {
    Widths();
    if s[0] == 1 {
      var rest := Take(s[1..], 32).rest;
      TakeBeSound(rest, 8);
      assert s == [s[0]] + s[1..];
    } else {
      assert s == [s[0]] + s[1..];
    }
  }

  /** What a slot reader leaves: all but a full slot, or fewer than eight bytes where a version is missing. */
  lemma TakeSlotLeaves(s: Bytes)
    requires TakeSlot(s).Ok?
    ensures var (slot, rest) := TakeSlot(s).value;
            || |rest| + SlotSize(slot) == |s|
            || (slot.Some? && |rest| < 8 && |rest| + 33 == |s|)
  {
  }

  lemma AcceptedBySlots(s: Bytes)
    requires DeserializePointers(s).Ok?
    ensures var p := DeserializePointers(s).value;
            && ((exists g: nat :: g < U64 && s == SerializePointers(p, g))
                <==> |s| == 24 + SlotSize(p.current) + SlotSize(p.lkg))
            && |s| in {26, 58, 66, 98, 106}
            && (|s| in {26, 66, 106} <==> |s| == 24 + SlotSize(p.current) + SlotSize(p.lkg))
  {
    hide SlotThen, TakeSlot, Be, TakeBe;
    Widths();
    var p := DeserializePointers(s).value;
    var s1 := Take(s, 8).rest;
    TakeBeSound(s1, 8);
    var s2 := TakeBe(s1, 8).rest;
    TakeBeSound(s2, 8);
    var g, s3 := TakeBe(s2, 8).value, TakeBe(s2, 8).rest;
    TakeSlotSound(s3);
    TakeSlotLeaves(s3);
    var s4 := TakeSlot(s3).value.1;
    TakeSlotSound(s4);
    TakeSlotLeaves(s4);
    if |s| == 24 + SlotSize(p.current) + SlotSize(p.lkg) {
      assert s == SerializePointers(p, g);
    }
    if k: nat :| k < U64 && s == SerializePointers(p, k) {
      SlotThenSize(p.lkg, []);
      SlotThenSize(p.current, SlotThen(p.lkg, []));
    }
  }

  /**
   * An accepted pointer record is a serialization of what it decodes to exactly when it has one of the three
   * lengths a writer can produce; the only other accepted lengths are those with a missing version.
   */
  lemma AcceptedPointersExactlyByLength(s: Bytes)
    requires DeserializePointers(s).Ok?
    ensures (exists g: nat :: g < U64 && s == SerializePointers(DeserializePointers(s).value, g))
            <==> |s| == 26 || |s| == 66 || |s| == 106
    ensures |s| in {26, 58, 66, 98, 106}
  {
    hide DeserializePointers, SerializePointers;
    AcceptedBySlots(s);
  }

  lemma SlotThenSize(slot: Option<Slot>, tail: Bytes)
    requires ValidSlot(slot)
    ensures |SlotThen(slot, tail)| == SlotSize(slot) + |tail|
  {
  }

  /** A record cut off before a version is accepted, with version zero. */
  lemma TruncatedVersionAccepted(digest: Bytes, generation: nat)
    requires |digest| == 32 && generation < U64
    ensures var s := POINTER_MAGIC + (Be(POINTER_SCHEMA, 8) + (Be(generation, 8) + ([1] + (digest + [0]))));
            DeserializePointers(s) == Ok(Pointers(Some(Slot(digest, 0)), None))
  {
    Widths();
    var s3: Bytes := [1] + (digest + [0]);
    var s2 := Be(generation, 8) + s3;
    var s1 := Be(POINTER_SCHEMA, 8) + s2;
    TakeAppend(POINTER_MAGIC, s1);
    TakeBeAppend(POINTER_SCHEMA, 8, s2);
    TakeBeAppend(generation, 8, s3);
    assert s3[1..] == digest + [0];
    TakeAppend(digest, [0]);
  }

  // ----- file names -----

  function HexDigit(n: nat): (c: char)
    requires n < 16
    ensures HexValue(c) == Some(n)
  {
    if n < 10 then '0' + n as char else 'a' + (n - 10) as char
  }

  function HexValue(c: char): Option<nat> {
    if '0' <= c <= '9' then Some((c - '0') as nat)
    else if 'a' <= c <= 'f' then Some((c - 'a') as nat + 10)
    else if 'A' <= c <= 'F' then Some((c - 'A') as nat + 10)
    else None
  }

  function HexEncode(digest: Bytes): (s: string)
    ensures |s| == 2 * |digest|
  {
    if digest == [] then "" else [HexDigit(digest[0] / 16), HexDigit(digest[0] % 16)] + HexEncode(digest[1..])
  }

  /** Two characters as one byte; a plus sign before a single digit is accepted too. */
  function HexByte(high: char, low: char): Option<byte> {
    match HexValue(low)
    case None => None
    case Some(l) =>
      if high == '+' then Some(l)
      else match HexValue(high) case None => None case Some(h) => Some(HexSum(h, l))
  }

  function HexSum(h: nat, l: nat): byte {
    (16 * h + l) % 256
  }

  function HexBytes(s: string): Option<Bytes>
    requires |s| % 2 == 0
  {
    if s == "" then Some([]) else
    match HexByte(s[0], s[1])
    case None => None
    case Some(b) => match HexBytes(s[2..]) case None => None case Some(rest) => Some([b] + rest)
  }

  /** The digest a staging file name stands for; other names stand for none. */
  function HexParse(name: string): Option<Bytes> {
    if |name| == 64 then HexBytes(name) else None
  }

  lemma HexByteOfDigits(b: byte)
    ensures HexByte(HexDigit(b / 16), HexDigit(b % 16)) == Some(b)
  {
  }

  lemma {:induction false} HexRoundTrip(digest: Bytes)
    ensures HexBytes(HexEncode(digest)) == Some(digest)
  {
    hide HexByte, HexDigit;
    if digest != [] {
      HexRoundTrip(digest[1..]);
      var s := HexEncode(digest);
      assert s[2..] == HexEncode(digest[1..]);
      HexByteOfDigits(digest[0]);
      assert digest == [digest[0]] + digest[1..];
    }
  }

  /** A digest can be read back from its file name, so different digests have different files. */
  lemma HexParseEncode(digest: Bytes)
    requires |digest| == 32
    ensures HexParse(HexEncode(digest)) == Some(digest)
  {
    HexRoundTrip(digest);
  }
}
