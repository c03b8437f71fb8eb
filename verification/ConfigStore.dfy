/**
 * The configuration decoders and the cache as the agent runs them: a reader with a position and a disk updated in
 * place.
 */
module ConfigStore {
  import opened Wire
  import opened Utf8
  import opened F = ConfigFormat
  import C = ConfigCache
  import R = ConfigRuns
  import StorageFormat

  /** `r` and the unread bytes `after` are what reading `p` from a byte string gives. */
  predicate Gave<T(==)>(p: Parsed<T>, r: Option<T>, after: Bytes) {
    match p case NoParse => r == None case Parsed(v, rest) => r == Some(v) && after == rest
  }

  class ByteReader {
    const bytes: Bytes
    var position: nat

    ghost predicate Valid()
      reads this
    {
      position <= |bytes|
    }

    function Rest(): Bytes
      requires Valid()
      reads this
    {
      bytes[position..]
    }

    constructor (bytes: Bytes)
      ensures Valid() && Rest() == bytes
    {
      this.bytes, position := bytes, 0;
    }

    method Fixed(n: nat) returns (r: Option<Bytes>)
      requires Valid()
      modifies this
      ensures Valid() && Gave(Take(old(Rest()), n), r, Rest()) && (r.None? ==> position == old(position))
    {
      if |bytes| - position < n { return None; }
      r := Some(bytes[position..position + n]);
      position := position + n;
      assert old(Rest())[..n] == bytes[old(position)..position] && old(Rest())[n..] == Rest();
    }

    /** A big-endian integer of `n` bytes. */
    method Unsigned(n: nat) returns (r: Option<nat>)
      requires Valid()
      modifies this
      ensures Valid() && Gave(TakeBe(old(Rest()), n), r, Rest()) && (r.None? ==> position == old(position))
    {
      var raw := Fixed(n);
      if raw.None? { return None; }
      var value: int, i: nat := 0, 0;
      while i < n
        invariant 0 <= i <= n == |raw.value| && value == BeValue(raw.value[..i])
      {
        assert raw.value[..i + 1][..i] == raw.value[..i];
        value, i := 256 * value + raw.value[i], i + 1;
      }
      assert raw.value[..n] == raw.value;
      r := Some(value);
    }

    /** A four-byte length and that many bytes. */
    method Field() returns (r: Option<Bytes>)
      requires Valid()
      modifies this
      ensures Valid() && Gave(TakeText32(old(Rest())), r, Rest())
    {
      hide BeValue;
      var length := Unsigned(4);
      if length.None? { return None; }
      r := Fixed(length.value);
    }

    method Text() returns (r: Option<Bytes>)
      requires Valid()
      modifies this
      ensures Valid() && Gave(TakeUtf8(old(Rest())), r, Rest())
    {
      hide TakeText32;
      r := Field();
      if r.Some? && !ValidUtf8(r.value) { r := None; }
    }

    method Fields() returns (r: Option<Envelope>)
      requires Valid()
      modifies this
      ensures Valid() && Gave(TakeFields(old(Rest())), r, Rest())
    {
      hide TakeUtf8, TakeBe;
      var device := Text();
      if device.None? { return None; }
      var bundle := Text();
      if bundle.None? { return None; }
      var issued := Unsigned(8);
      if issued.None? { return None; }
      var payload := Text();
      if payload.None? { return None; }
      r := Some(Envelope(device.value, bundle.value, issued.value, payload.value));
    }

    method BundleBody() returns (r: Option<Body>)
      requires Valid()
      modifies this
      ensures Valid() && Gave(TakeBody(old(Rest())), r, Rest())
    {
      hide TakeUtf8, TakeFields, TakeText32;
      var keyId := Text();
      if keyId.None? { return None; }
      var envelope := Fields();
      if envelope.None? { return None; }
      var signature := Field();
      if signature.None? { return None; }
      var digest := Fixed(32);
      if digest.None? { return None; }
      r := Some(Body(Signed(envelope.value, keyId.value, signature.value), digest.value));
    }

    method OptionalSlot() returns (r: Result<Option<Slot>, CacheError>)
      requires Valid()
      modifies this
      ensures Valid()
      ensures match TakeSlot(old(Rest()))
              case Err(e) => r == Err(e)
              case Ok(pair) => r == Ok(pair.0) && Rest() == pair.1
    {
      hide TakeBe;
      if position == |bytes| { return Err(InvalidWireFormat); }
      var tag := bytes[position];
      position := position + 1;
      assert Rest() == old(Rest())[1..] && tag == old(Rest())[0];
      if tag == 0 { return Ok(None); }
      if tag != 1 { return Err(CorruptPointer); }
      var digest := Fixed(32);
      if digest.None? { return Err(InvalidWireFormat); }
      var version := Unsigned(8);
      r := Ok(Some(Slot(digest.value, if version.Some? then version.value else 0)));
    }
  }

  method DeserializeBundle(bytes: Bytes, sha: Sha) returns (r: Result<Signed, CacheError>)
    ensures r == DeserializeSigned(bytes, sha)
  {
    hide TakeBe, TakeBody, CheckBody;
    var reader := new ByteReader(bytes);
    var format := reader.Fixed(1);
    if format.None? || format.value[0] != WIRE_VERSION { return Err(InvalidWireFormat); }
    var version := reader.Unsigned(2);
    if version.None? || version.value != API_VERSION { return Err(InvalidWireFormat); }
    var schema := reader.Unsigned(2);
    if schema.None? { return Err(InvalidWireFormat); }
    if schema.value != SCHEMA_VERSION { return Err(UnsupportedSchema); }
    var body := reader.BundleBody();
    if body.None? || reader.Rest() != [] { return Err(InvalidWireFormat); }
    r := CheckBody(body.value, sha);
  }

  method DeserializePointerRecord(bytes: Bytes) returns (r: Result<Pointers, CacheError>)
    ensures r == DeserializePointers(bytes)
  {
    hide TakeBe, TakeSlot;
    var reader := new ByteReader(bytes);
    var magic := reader.Fixed(8);
    if magic.None? { return Err(InvalidWireFormat); }
    if magic.value != POINTER_MAGIC { return Err(CorruptPointer); }
    var schema := reader.Unsigned(8);
    if schema.None? { return Err(InvalidWireFormat); }
    if schema.value != POINTER_SCHEMA { return Err(CorruptPointer); }
    var generation := reader.Unsigned(8);
    if generation.None? { return Err(InvalidWireFormat); }
    var current := reader.OptionalSlot();
    if current.Err? { return Err(current.error); }
    var lkg := reader.OptionalSlot();
    if lkg.Err? { return Err(lkg.error); }
    if reader.Rest() != [] { return Err(InvalidWireFormat); }
    r := Ok(Pointers(current.value, lkg.value));
  }

  method ReadEnvelope(bytes: Bytes) returns (r: Result<Envelope, ProtocolError>)
    ensures r == FromCanonicalBytes(bytes)
  {
    hide TakeBe, TakeFields, CanonicalBytes, ValidDeviceId;
    if !(PREFIX <= bytes) { return Err(InvalidField); }
    var reader := new ByteReader(bytes[|PREFIX|..]);
    var version := reader.Unsigned(2);
    if version.None? { return Err(InvalidField); }
    if version.value != API_VERSION { return Err(UnsupportedVersion(version.value)); }
    var schema := reader.Unsigned(2);
    if schema.None? { return Err(InvalidField); }
    var fields := reader.Fields();
    if fields.None? || reader.Rest() != [] { return Err(InvalidField); }
    if !ValidDeviceId(fields.value.deviceId) || !StorageFormat.ValidId(fields.value.bundleVersion) {
      return Err(InvalidField);
    }
    var made := NewEnvelope(schema.value, fields.value);
    if made.Err? { return made; }
    r := if CanonicalBytes(made.value) == bytes then made else Err(InvalidField);
  }

  /** The signature input, appended field by field. */
  method WriteCanonicalBytes(e: Envelope) returns (output: Bytes)
    requires ValidEnvelope(e)
    ensures output == CanonicalBytes(e) && FromCanonicalBytes(output) == Ok(e)
  {
    hide Be, ValidEnvelope, FromCanonicalBytes;
    ghost var whole := CanonicalBytes(e);
    output := PREFIX + Be(API_VERSION, 2) + Be(SCHEMA_VERSION, 2);
    assert whole == output + FieldsThen(e, []);
    ghost var tail := Be(e.issuedAt, 8) + Text32Then(e.payload, []);
    output := output + Be(|e.deviceId| % U32, 4) + e.deviceId;
    assert whole == output + Text32Then(e.bundleVersion, tail);
    output := output + Be(|e.bundleVersion| % U32, 4) + e.bundleVersion;
    assert whole == output + tail;
    output := output + Be(e.issuedAt, 8);
    output := output + Be(|e.payload| % U32, 4) + e.payload;
    assert whole == output;
    EnvelopeCodec(output, e);
  }

  /** The staging file name of a digest, two characters per byte. */
  method EncodeHex(digest: Bytes) returns (s: string)
    ensures s == HexEncode(digest)
  {
    s := "";
    var i := 0;
    while i < |digest|
      invariant 0 <= i <= |digest| && s + HexEncode(digest[i..]) == HexEncode(digest)
    {
      assert digest[i..][0] == digest[i] && digest[i..][1..] == digest[i + 1..];
      s := s + [HexDigit(digest[i] / 16), HexDigit(digest[i] % 16)];
      i := i + 1;
    }
  }

  /** What parsing gives once `digest` holds the bytes of the first `i` characters. */
  ghost function HexFrom(name: string, i: nat, digest: Bytes): Option<Bytes>
    requires i <= |name| && (|name| - i) % 2 == 0
  {
    match HexBytes(name[i..]) case None => None case Some(rest) => Some(digest + rest)
  }

  lemma HexStart(name: string)
    requires |name| % 2 == 0
    ensures HexFrom(name, 0, []) == HexBytes(name)
  {
    assert name[0..] == name;
    if HexBytes(name).Some? { assert [] + HexBytes(name).value == HexBytes(name).value; }
  }

  lemma HexEnd(name: string, digest: Bytes)
    ensures HexFrom(name, |name|, digest) == Some(digest)
  {
    assert name[|name|..] == "" && digest + [] == digest;
  }

  lemma HexStep(name: string, i: nat, digest: Bytes)
    requires i + 2 <= |name| && (|name| - i) % 2 == 0
    ensures HexFrom(name, i, digest) ==
            match HexByte(name[i], name[i + 1]) case None => None case Some(b) => HexFrom(name, i + 2, digest + [b])
  {
    hide HexByte;
    assert name[i..][0] == name[i] && name[i..][1] == name[i + 1] && name[i..][2..] == name[i + 2..];
    var b := HexByte(name[i], name[i + 1]);
    if b.Some? && HexBytes(name[i + 2..]).Some? {
      var rest := HexBytes(name[i + 2..]).value;
      assert digest + ([b.value] + rest) == digest + [b.value] + rest;
    }
  }

  method ParseHex(name: string) returns (r: Option<Bytes>)
    ensures r == HexParse(name)
  {
    hide HexByte, HexBytes, HexFrom;
    if |name| != 64 { return None; }
    var digest: Bytes, i: nat := [], 0;
    HexStart(name);
    while i < 64
      invariant i <= 64 && i % 2 == 0 && HexFrom(name, i, digest) == HexBytes(name)
    {
      HexStep(name, i, digest);
      var b := HexByte(name[i], name[i + 1]);
      if b.None? { return None; }
      digest, i := digest + [b.value], i + 2;
    }
    HexEnd(name, digest);
    r := Some(digest);
  }

  /** The in-memory pair of configurations that the durable cache stands for. */
  class ActiveConfigurationSet {
    const setup: C.Setup
    var current: Option<Signed>
    var lastKnownGood: Option<Signed>

    function State(): R.ActiveSet
      reads this
    {
      R.ActiveSet(current, lastKnownGood)
    }

    constructor (setup: C.Setup)
      ensures this.setup == setup && State() == R.ActiveSet(None, None)
    {
      this.setup, current, lastKnownGood := setup, None, None;
    }

    method Activate(x: Signed) returns (ok: bool)
      modifies this
      ensures (State(), ok) == R.Activate(setup, old(State()), x)
    {
      if setup.verify(x).Some? { return false; }
      var version := C.Version(x);
      if version.None? || R.Outdated(current, version.value) { return false; }
      lastKnownGood := current;
      current := Some(x);
      ok := true;
    }
  }

  class ConfigurationCache {
    const setup: C.Setup
    var disk: C.Disk
    var generation: nat
    /** File operations that still succeed before the device fails. */
    var budget: nat

    constructor (setup: C.Setup, disk: C.Disk, budget: nat)
      ensures this.setup == setup && this.disk == disk && this.budget == budget && generation == 0
    {
      this.setup, this.disk, this.budget, generation := setup, disk, budget, 0;
    }

    method Apply(op: C.Op) returns (ok: bool)
      modifies this`disk, this`budget
      ensures ok <==> old(budget) > 0
      ensures disk == if ok then C.Exec(old(disk), op) else old(disk)
      ensures budget == if ok then old(budget) - 1 else 0
    {
      ok := budget > 0;
      if ok { disk, budget := C.Exec(disk, op), budget - 1; }
    }

    /** Write a scratch file and move it into place. */
    method WriteFileAtomic(path: C.CachePath, temp: C.CachePath, bytes: Bytes) returns (ok: bool)
      modifies this`disk, this`budget
      ensures ok <==> old(budget) >= 2
      ensures budget == if ok then old(budget) - 2 else 0
      ensures disk == match old(budget)
                      case 0 => old(disk)
                      case 1 => C.Exec(old(disk), C.Write(temp, bytes))
                      case _ => C.Exec(C.Exec(old(disk), C.Write(temp, bytes)), C.Move(temp, path))
    {
      ok := Apply(C.Write(temp, bytes));
      if ok { ok := Apply(C.Move(temp, path)); }
    }

    method ReadPointers() returns (r: Result<Pointers, CacheError>)
      ensures r == C.ReadPointers(disk)
    {
      if C.PointersFile in disk { r := DeserializePointerRecord(disk[C.PointersFile]); } else { r := Ok(NO_POINTERS); }
    }

    method LoadBundleAtDigest(digest: Bytes) returns (r: Result<Option<Signed>, CacheError>)
      ensures r == C.LoadBundle(setup, disk, digest)
    {
      if C.BundlePath(digest) !in disk { return Err(MissingBundle); }
      var x := DeserializeBundle(disk[C.BundlePath(digest)], setup.sha);
      if x.Err? { return Err(x.error); }
      r := if ContentDigest(x.value, setup.sha) != digest then Err(CorruptPointer) else Ok(Some(x.value));
    }

    method CurrentBundle() returns (r: Result<Option<Signed>, CacheError>)
      ensures r == C.CurrentBundle(setup, disk)
    {
      var p := ReadPointers();
      if p.Err? { return Err(p.error); }
      if p.value.current.None? { return Ok(None); }
      r := LoadBundleAtDigest(p.value.current.value.digest);
    }

    method LkgBundle() returns (r: Result<Option<Signed>, CacheError>)
      ensures r == C.LkgBundle(setup, disk)
    {
      var p := ReadPointers();
      if p.Err? { return Err(p.error); }
      if p.value.lkg.None? { return Ok(None); }
      r := LoadBundleAtDigest(p.value.lkg.value.digest);
    }

    /** Remove every listed file that no pointer names; each removal may fail on its own and is then ignored. */
    method CleanStaging(p: Pointers, listing: seq<string>, stuck: set<string>)
      modifies this`disk, this`budget
      ensures disk == Cut(old(disk), C.Removes(R.Cleaned(p, listing, stuck)), old(budget))
    {
      hide C.Unreferenced, C.Run, C.Removes, Cut;
      var i := 0;
      assert listing[0..] == listing;
      while i < |listing|
        invariant 0 <= i <= |listing|
        invariant Cut(disk, C.Removes(R.Cleaned(p, listing[i..], stuck)), budget)
               == Cut(old(disk), C.Removes(R.Cleaned(p, listing, stuck)), old(budget))
      {
        assert listing[i..][0] == listing[i] && listing[i..][1..] == listing[i + 1..];
        if C.Unreferenced(p, listing[i]) && listing[i] !in stuck {
          RemoveFirst(disk, listing[i], R.Cleaned(p, listing[i + 1..], stuck), budget);
          var _ := Apply(C.Remove(C.Staged(listing[i])));
        } else {
          assert R.Cleaned(p, listing[i..], stuck) == R.Cleaned(p, listing[i + 1..], stuck);
        }
        i := i + 1;
      }
      NothingToRemove(disk, budget);
    }

    method StageVerifyActivate(bytes: Bytes, listing: seq<string>, stuck: set<string>)
      returns (r: Result<(nat, Bytes), CacheError>)
      modifies this
      ensures (disk, r, generation) == Activation(setup, old(disk), bytes, old(generation), listing, stuck, old(budget))
    {
      hide C.Exec, Cut, C.Removes, C.Admit, C.ReadPointers, SerializePointers, R.SubmissionOps, NextGeneration,
          ContentDigest, C.BundlePath, C.BundleTemp;
      var admitted := C.Admit(setup, bytes);
      if admitted.Err? { return Err(admitted.error); }
      var (x, version) := admitted.value;
      var was := ReadPointers();
      if was.Err? { return Err(was.error); }
      if was.value.current.Some? && version <= was.value.current.value.version {
        return Err(StaleVersion(version, was.value.current.value.version));
      }
      var digest := ContentDigest(x, setup.sha);
      var next := NextGeneration(generation);
      var p := Pointers(Some(Slot(digest, version)), was.value.current);
      ActivationRuns(disk, R.Submission(bytes, next, listing, stuck), p, budget);
      var ok := WriteFileAtomic(C.BundlePath(digest), C.BundleTemp(digest), bytes);
      if !ok { return Err(CacheError.IoFailure); }
      ok := WriteFileAtomic(C.PointersFile, C.PointersTemp, SerializePointers(p, next));
      if !ok { return Err(CacheError.IoFailure); }
      generation := next;
      CleanStaging(p, listing, stuck);
      r := Ok((version, digest));
    }
  }

  /** The disk after as many of the operations as the device still carries out. */
  function Cut(d: C.Disk, ops: seq<C.Op>, budget: nat): C.Disk {
    C.Run(d, ops[..Least(budget, |ops|)])
  }

  /** What an activation leaves: the disk, the answer and the generation counter. */
  function Activation(
    c: C.Setup, d: C.Disk, bytes: Bytes, generation: nat, listing: seq<string>, stuck: set<string>, budget: nat)
    : (C.Disk, Result<(nat, Bytes), CacheError>, nat)
  {
    match C.Decide(c, d, bytes)
    case Err(e) => (d, Err(e), generation)
    case Ok(p) =>
      var next := NextGeneration(generation);
      var e := Cut(d, R.SubmissionOps(R.Submission(bytes, next, listing, stuck), p), budget);
      if budget < 4 then (e, Err(CacheError.IoFailure), generation)
      else (e, Ok((p.current.value.version, p.current.value.digest)), next)
  }

  function Least(a: nat, b: nat): nat {
    if a <= b then a else b
  }

  function NextGeneration(g: nat): nat {
    if g + 1 < U64 then g + 1 else U64 - 1
  }

  lemma RemoveFirst(d: C.Disk, name: string, names: seq<string>, budget: nat)
    ensures Cut(d, C.Removes([name] + names), budget)
            == if budget == 0 then d else Cut(C.Exec(d, C.Remove(C.Staged(name))), C.Removes(names), budget - 1)
    ensures Cut(d, C.Removes(names), 0) == d
  {
    var all, rest, op := C.Removes([name] + names), C.Removes(names), C.Remove(C.Staged(name));
    assert rest[..0] == [];
    if budget == 0 {
      assert all[..0] == [];
    } else {
      var k := Least(budget - 1, |names|);
      assert all[..k + 1] == [op] + rest[..k];
      C.RunConcat(d, [op], rest[..k]);
      assert [op][..0] == [] && C.Run(d, [op]) == C.Exec(C.Run(d, []), op);
    }
  }

  lemma NothingToRemove(d: C.Disk, budget: nat)
    ensures Cut(d, C.Removes([]), budget) == d
  {
  }

  lemma ActivationRuns(d: C.Disk, s: R.Submission, p: Pointers, budget: nat)
    requires p.current.Some?
    ensures var digest := p.current.value.digest;
            var removes := C.Removes(R.Cleaned(p, s.listing, s.stuck));
            var d1 := C.Exec(d, C.Write(C.BundleTemp(digest), s.bytes));
            var d2 := C.Exec(d1, C.Move(C.BundleTemp(digest), C.BundlePath(digest)));
            var d3 := C.Exec(d2, C.Write(C.PointersTemp, SerializePointers(p, s.generation)));
            var d4 := C.Exec(d3, C.Move(C.PointersTemp, C.PointersFile));
            Cut(d, R.SubmissionOps(s, p), budget) ==
              match budget
              case 0 => d case 1 => d1 case 2 => d2 case 3 => d3
              case _ => Cut(d4, removes, budget - 4)
  {
    hide C.Exec, C.Run, SerializePointers, C.PublishOps, R.Cleaned;
    var ops, publish := R.SubmissionOps(s, p), C.PublishOps(s.bytes, p, s.generation);
    var removes := C.Removes(R.Cleaned(p, s.listing, s.stuck));
    C.PublishLength(s.bytes, p, s.generation);
    PublishSteps(d, s, p);
    if budget < 4 {
      assert ops[..budget] == publish[..budget];
    } else {
      var k := Least(budget - 4, |removes|);
      assert ops[..Least(budget, |ops|)] == publish[..4] + removes[..k];
      C.RunConcat(d, publish[..4], removes[..k]);
    }
  }

  lemma PublishSteps(d: C.Disk, s: R.Submission, p: Pointers)
    requires p.current.Some?
    ensures var digest := p.current.value.digest;
            var publish := C.PublishOps(s.bytes, p, s.generation);
            var d1 := C.Exec(d, C.Write(C.BundleTemp(digest), s.bytes));
            var d2 := C.Exec(d1, C.Move(C.BundleTemp(digest), C.BundlePath(digest)));
            var d3 := C.Exec(d2, C.Write(C.PointersTemp, SerializePointers(p, s.generation)));
            var d4 := C.Exec(d3, C.Move(C.PointersTemp, C.PointersFile));
            && C.Run(d, publish[..0]) == d && C.Run(d, publish[..1]) == d1 && C.Run(d, publish[..2]) == d2
            && C.Run(d, publish[..3]) == d3 && C.Run(d, publish[..4]) == d4
  {
    hide C.Exec, SerializePointers;
    var publish := C.PublishOps(s.bytes, p, s.generation);
    assert publish[..4][..3] == publish[..3] && publish[..3][..2] == publish[..2];
    assert publish[..2][..1] == publish[..1] && publish[..1][..0] == publish[..0] == [];
  }
}
