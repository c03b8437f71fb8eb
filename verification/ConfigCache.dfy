/** The durable configuration cache: bundle files named by digest, a pointer record, and crashes between file steps. */
module ConfigCache {
  import opened Wire
  import opened ConfigFormat
  import Decimal

  datatype CachePath = PointersFile | PointersTemp | Staged(name: string)

  type Disk = map<CachePath, Bytes>

  datatype Op = Write(path: CachePath, bytes: Bytes) | Move(from: CachePath, to: CachePath) | Remove(path: CachePath)

  function Exec(d: Disk, op: Op): Disk {
    match op
    case Write(path, bytes) => d[path := bytes]
    case Move(from, to) => if from in d then (d - {from})[to := d[from]] else d
    case Remove(path) => d - {path}
  }

  function Run(d: Disk, ops: seq<Op>): Disk {
    if ops == [] then d else Exec(Run(d, ops[..|ops| - 1]), ops[|ops| - 1])
  }

  function BundlePath(digest: Bytes): CachePath {
    Staged(HexEncode(digest))
  }

  function BundleTemp(digest: Bytes): CachePath {
    Staged(HexEncode(digest) + ".tmp")
  }

  /** Scratch files: the pointer scratch file and 68-character staging names, a digest followed by `.tmp`. */
  predicate Temporary(path: CachePath) {
    path == PointersTemp || (path.Staged? && |path.name| == 68)
  }

  /** The device the cache serves, its digest function, and the signature check with the error it gives, if any. */
  datatype Setup = Setup(device: Bytes, sha: Sha, verify: Signed -> Option<CacheError>)

  function Chars(s: Bytes): string {
    seq(|s|, i requires 0 <= i < |s| => s[i] as char)
  }

  function Version(x: Signed): Option<nat> {
    Decimal.ParseU64(Chars(x.envelope.bundleVersion))
  }

  /** All checks on a submitted bundle that do not look at the disk. */
  function Admit(c: Setup, bytes: Bytes): Result<(Signed, nat), CacheError> {
    var x :- DeserializeSigned(bytes, c.sha);
    match c.verify(x) {
      case Some(error) => Err(error)
      case None =>
        if x.envelope.deviceId != c.device then Err(WrongAudience)
        else match Version(x) { case None => Err(InvalidWireFormat) case Some(v) => Ok((x, v)) }
    }
  }

  function ReadPointers(d: Disk): Result<Pointers, CacheError> {
    if PointersFile in d then DeserializePointers(d[PointersFile]) else Ok(NO_POINTERS)
  }

  /** The pointers an activation would install. */
  function Decide(c: Setup, d: Disk, bytes: Bytes): (r: Result<Pointers, CacheError>)
    ensures r.Ok? ==> r.value.current.Some?
  {
    var admitted :- Admit(c, bytes);
    var (x, v) := admitted;
    var p :- ReadPointers(d);
    if p.current.Some? && v <= p.current.value.version then Err(StaleVersion(v, p.current.value.version))
    else Ok(Pointers(Some(Slot(ContentDigest(x, c.sha), v)), p.current))
  }

  predicate Names(slot: Option<Slot>, digest: Bytes) {
    slot.Some? && slot.value.digest == digest
  }

  /** Staging files that cleaning may remove: their name reads as a digest that no pointer holds. */
  predicate Unreferenced(p: Pointers, name: string) {
    match HexParse(name) case None => false case Some(digest) => !Names(p.current, digest) && !Names(p.lkg, digest)
  }

  function Removes(names: seq<string>): seq<Op> {
    seq(|names|, i requires 0 <= i < |names| => Remove(Staged(names[i])))
  }

  function PublishOps(bytes: Bytes, p: Pointers, generation: nat): seq<Op>
    requires p.current.Some?
  {
    var digest := p.current.value.digest;
    [Write(BundleTemp(digest), bytes),
     Move(BundleTemp(digest), BundlePath(digest)),
     Write(PointersTemp, SerializePointers(p, generation)),
     Move(PointersTemp, PointersFile)]
  }

  function ActivationOps(bytes: Bytes, p: Pointers, generation: nat, cleaned: seq<string>): seq<Op>
    requires p.current.Some?
  {
    PublishOps(bytes, p, generation) + Removes(cleaned)
  }

  function LoadBundle(c: Setup, d: Disk, digest: Bytes): Result<Option<Signed>, CacheError> {
    if BundlePath(digest) !in d then Err(MissingBundle) else
    var x :- DeserializeSigned(d[BundlePath(digest)], c.sha);
    if ContentDigest(x, c.sha) != digest then Err(CorruptPointer) else Ok(Some(x))
  }

  function LoadSlot(c: Setup, d: Disk, slot: Option<Slot>): Result<Option<Signed>, CacheError> {
    match slot case None => Ok(None) case Some(s) => LoadBundle(c, d, s.digest)
  }

  function CurrentBundle(c: Setup, d: Disk): Result<Option<Signed>, CacheError> {
    var p :- ReadPointers(d);
    LoadSlot(c, d, p.current)
  }

  function LkgBundle(c: Setup, d: Disk): Result<Option<Signed>, CacheError> {
    var p :- ReadPointers(d);
    LoadSlot(c, d, p.lkg)
  }

  // ----- invariant -----

  /** The digest function tells the envelopes in `seen` apart. */
  ghost predicate CollisionFree(sha: Sha, seen: set<Envelope>) {
    forall a, b :: a in seen && b in seen && sha(CanonicalBytes(a)) == sha(CanonicalBytes(b))
        ==> CanonicalBytes(a) == CanonicalBytes(b)
  }

  /** The slot's bundle file holds a valid bundle with the recorded digest and version. */
  ghost predicate Holds(c: Setup, d: Disk, slot: Option<Slot>, seen: set<Envelope>) {
    slot.Some? ==>
      && ValidSlot(slot)
      && BundlePath(slot.value.digest) in d
      && var r := DeserializeSigned(d[BundlePath(slot.value.digest)], c.sha);
         && r.Ok? && r.value.envelope in seen
         && ContentDigest(r.value, c.sha) == slot.value.digest
         && Version(r.value) == Some(slot.value.version)
  }

  predicate Ordered(p: Pointers) {
    p.lkg.Some? ==> p.current.Some? && p.lkg.value.version < p.current.value.version
  }

  ghost predicate Sound(c: Setup, d: Disk, p: Pointers, seen: set<Envelope>) {
    Holds(c, d, p.current, seen) && Holds(c, d, p.lkg, seen) && Ordered(p)
  }

  ghost predicate Inv(c: Setup, d: Disk, seen: set<Envelope>) {
    ReadPointers(d).Ok? && Sound(c, d, ReadPointers(d).value, seen)
  }

  /** Two disks agree on a slot's bundle file. */
  ghost predicate SameBundle(d: Disk, e: Disk, slot: Option<Slot>) {
    slot.Some? ==> (BundlePath(slot.value.digest) in d ==>
      BundlePath(slot.value.digest) in e && e[BundlePath(slot.value.digest)] == d[BundlePath(slot.value.digest)])
  }

  lemma SoundFrame(c: Setup, d: Disk, e: Disk, p: Pointers, seen: set<Envelope>)
    requires Sound(c, d, p, seen) && SameBundle(d, e, p.current) && SameBundle(d, e, p.lkg)
    ensures Sound(c, e, p, seen)
  {
    hide DeserializeSigned;
  }

  /**
   * A bundle that is newer than the current one is none of the referenced ones, so its file is not a referenced one.
   */
  lemma NewBundleIsNew(c: Setup, d: Disk, bytes: Bytes, slot: Option<Slot>, seen: set<Envelope>)
    requires Admit(c, bytes).Ok? && Admit(c, bytes).value.0.envelope in seen && CollisionFree(c.sha, seen)
    requires Holds(c, d, slot, seen) && slot.Some? && slot.value.version < Admit(c, bytes).value.1
    ensures ContentDigest(Admit(c, bytes).value.0, c.sha) != slot.value.digest
  {
    hide DeserializeSigned, CanonicalBytes, SerializeSigned, ValidEnvelope, ContentDigest, Decimal.ParseU64, BundlePath;
    var stored := d[BundlePath(slot.value.digest)];
    var x, y := Admit(c, bytes).value.0, DeserializeSigned(stored, c.sha).value;
    SerializeDeserialized(bytes, c.sha);
    SerializeDeserialized(stored, c.sha);
    if ContentDigest(x, c.sha) == ContentDigest(y, c.sha) { SameDigestSameEnvelope(c.sha, x, y, seen); }
  }

  lemma SameDigestSameEnvelope(sha: Sha, x: Signed, y: Signed, seen: set<Envelope>)
    requires ValidSigned(x) && ValidSigned(y) && x.envelope in seen && y.envelope in seen && CollisionFree(sha, seen)
    requires ContentDigest(x, sha) == ContentDigest(y, sha)
    ensures x.envelope == y.envelope
  {
    hide CanonicalBytes, ValidEnvelope;
    CanonicalBytesInjective(x.envelope, y.envelope);
  }

  lemma BundlePathsDiffer(a: Bytes, b: Bytes)
    requires |a| == 32 && |b| == 32 && a != b
    ensures BundlePath(a) != BundlePath(b)
  {
    HexParseEncode(a);
    HexParseEncode(b);
  }

  lemma PathShapes(digest: Bytes)
    requires |digest| == 32
    ensures !Temporary(BundlePath(digest)) && Temporary(BundleTemp(digest))
  {
  }

  /** The disk after `k` of the publishing steps. */
  function Publishing(d: Disk, bytes: Bytes, p: Pointers, generation: nat, k: nat): Disk
    requires p.current.Some? && k <= 4
  {
    var path, temp := BundlePath(p.current.value.digest), BundleTemp(p.current.value.digest);
    var pointers := SerializePointers(p, generation);
    if k == 0 then d
    else if k == 1 then d[temp := bytes]
    else if k == 2 then (d - {temp})[path := bytes]
    else if k == 3 then (d - {temp})[path := bytes][PointersTemp := pointers]
    else ((d - {temp})[path := bytes] - {PointersTemp})[PointersFile := pointers]
  }

  lemma PublishStep(d: Disk, bytes: Bytes, p: Pointers, generation: nat, k: nat)
    requires p.current.Some? && |p.current.value.digest| == 32 && k < 4
    ensures Publishing(d, bytes, p, generation, k + 1)
         == Exec(Publishing(d, bytes, p, generation, k), PublishOps(bytes, p, generation)[k])
  {
    hide SerializePointers, BundlePath, BundleTemp, Temporary;
    PathShapes(p.current.value.digest);
  }

  lemma {:induction false} RunPublish(d: Disk, bytes: Bytes, p: Pointers, generation: nat, k: nat)
    requires p.current.Some? && |p.current.value.digest| == 32 && k <= 4
    ensures Run(d, PublishOps(bytes, p, generation)[..k]) == Publishing(d, bytes, p, generation, k)
  {
    hide SerializePointers, BundlePath, BundleTemp, Exec;
    var ops := PublishOps(bytes, p, generation);
    if k > 0 {
      PublishStep(d, bytes, p, generation, k - 1);
      assert ops[..k][..k - 1] == ops[..k - 1];
      RunPublish(d, bytes, p, generation, k - 1);
    }
  }

  lemma {:induction false} RunConcat(d: Disk, a: seq<Op>, b: seq<Op>)
    ensures Run(d, a + b) == Run(Run(d, a), b)
  {
    if b == [] {
      assert a + b == a;
    } else {
      assert (a + b)[..|a + b| - 1] == a + b[..|b| - 1];
      RunConcat(d, a, b[..|b| - 1]);
    }
  }

  lemma {:induction false} RemovesKeep(d: Disk, names: seq<string>, path: CachePath)
    requires path.Staged? ==> path.name !in names
    ensures path in Run(d, Removes(names)) <==> path in d
    ensures path in d ==> Run(d, Removes(names))[path] == d[path]
  {
    if names != [] {
      var init, ops := names[..|names| - 1], Removes(names);
      assert ops[..|ops| - 1] == Removes(init);
      RemovesKeep(d, init, path);
    }
  }

  lemma CleaningKeeps(c: Setup, d: Disk, p: Pointers, names: seq<string>, seen: set<Envelope>)
    requires Sound(c, d, p, seen) && ReadPointers(d) == Ok(p) && forall name <- names :: Unreferenced(p, name)
    ensures var e := Run(d, Removes(names)); Sound(c, e, p, seen) && ReadPointers(e) == Ok(p)
  {
    hide DeserializeSigned, HexParse;
    var e := Run(d, Removes(names));
    RemovesKeep(d, names, PointersFile);
    if p.current.Some? {
      HexParseEncode(p.current.value.digest); RemovesKeep(d, names, BundlePath(p.current.value.digest));
    }
    if p.lkg.Some? { HexParseEncode(p.lkg.value.digest); RemovesKeep(d, names, BundlePath(p.lkg.value.digest)); }
    SoundFrame(c, d, e, p, seen);
  }

  /** Submitting `bytes` is accepted and installs `p`. */
  ghost predicate Accepts(c: Setup, d: Disk, bytes: Bytes, p: Pointers, seen: set<Envelope>) {
    && Decide(c, d, bytes) == Ok(p)
    && Admit(c, bytes).value.0.envelope in seen
    && CollisionFree(c.sha, seen)
    && Inv(c, d, seen)
  }

  lemma NewPointersAreValid(c: Setup, d: Disk, bytes: Bytes, p: Pointers, seen: set<Envelope>)
    requires Accepts(c, d, bytes, p, seen)
    ensures p.current.Some? && p.lkg == ReadPointers(d).value.current && Ordered(p) && ValidPointers(p)
    ensures DeserializeSigned(bytes, c.sha).Ok?
    ensures var x := DeserializeSigned(bytes, c.sha).value;
            ContentDigest(x, c.sha) == p.current.value.digest && Version(x) == Some(p.current.value.version)
                && x.envelope in seen
  {
    hide DeserializeSigned, ContentDigest, CollisionFree;
    DigestLength(Admit(c, bytes).value.0, c.sha);
  }

  lemma NewDigestIsFree(c: Setup, d: Disk, bytes: Bytes, p: Pointers, seen: set<Envelope>)
    requires Accepts(c, d, bytes, p, seen) && p.current.Some?
    ensures var was := ReadPointers(d).value;
            !Names(was.current, p.current.value.digest) && !Names(was.lkg, p.current.value.digest)
  {
    hide DeserializeSigned, ContentDigest, CollisionFree;
    var was := ReadPointers(d).value;
    if was.current.Some? { NewBundleIsNew(c, d, bytes, was.current, seen); }
    if was.lkg.Some? { NewBundleIsNew(c, d, bytes, was.lkg, seen); }
  }

  /** Until the last publishing step the old pointers stay, with their bundles untouched. */
  lemma OldPointersStay(c: Setup, d: Disk, bytes: Bytes, p: Pointers, generation: nat, k: nat, seen: set<Envelope>)
    requires Accepts(c, d, bytes, p, seen) && p.current.Some? && |p.current.value.digest| == 32 && k <= 3
    ensures var e := Publishing(d, bytes, p, generation, k);
            ReadPointers(e) == ReadPointers(d) && Sound(c, e, ReadPointers(d).value, seen)
  {
    hide Decide, Admit, DeserializeSigned, ContentDigest, CollisionFree, ReadPointers, Publishing;
    NewDigestIsFree(c, d, bytes, p, seen);
    var was, e := ReadPointers(d).value, Publishing(d, bytes, p, generation, k);
    PublishingKeepsPointers(d, bytes, p, generation, k);
    OldBundleStays(d, bytes, p, generation, k, was.current);
    OldBundleStays(d, bytes, p, generation, k, was.lkg);
    SoundFrame(c, d, e, was, seen);
  }

  lemma PublishingKeepsPointers(d: Disk, bytes: Bytes, p: Pointers, generation: nat, k: nat)
    requires p.current.Some? && k <= 3
    ensures ReadPointers(Publishing(d, bytes, p, generation, k)) == ReadPointers(d)
  {
    hide DeserializePointers;
  }

  lemma OldBundleStays(d: Disk, bytes: Bytes, p: Pointers, generation: nat, k: nat, slot: Option<Slot>)
    requires p.current.Some? && |p.current.value.digest| == 32 && k <= 4
    requires slot.Some? ==> |slot.value.digest| == 32 && slot.value.digest != p.current.value.digest
    ensures SameBundle(d, Publishing(d, bytes, p, generation, k), slot)
  {
    PathShapes(p.current.value.digest);
    if slot.Some? {
      PathShapes(slot.value.digest);
      BundlePathsDiffer(slot.value.digest, p.current.value.digest);
    }
  }

  /** The last publishing step switches to the new pointers, whose bundles are both in place. */
  lemma NewPointersHold(c: Setup, d: Disk, bytes: Bytes, p: Pointers, generation: nat, seen: set<Envelope>)
    requires Accepts(c, d, bytes, p, seen) && generation < U64
    requires p.current.Some? && |p.current.value.digest| == 32
    ensures var e := Publishing(d, bytes, p, generation, 4); ReadPointers(e) == Ok(p) && Sound(c, e, p, seen)
  {
    hide DeserializeSigned, ContentDigest, CollisionFree, DeserializePointers, SerializePointers;
    var e := Publishing(d, bytes, p, generation, 4);
    NewPointersAreValid(c, d, bytes, p, seen);
    NewDigestIsFree(c, d, bytes, p, seen);
    DeserializeSerializedPointers(p, generation);
    OldBundleStays(d, bytes, p, generation, 4, p.lkg);
    assert BundlePath(p.current.value.digest) in e && e[BundlePath(p.current.value.digest)] == bytes;
  }

  /**
   * However many file steps of an activation are carried out, the pointer record is the old or the new one, it
   * switches exactly at the fourth step, and every bundle it names is in place with its digest and version.
   */
  lemma ActivationPrefixIsSafe(c: Setup, d: Disk, bytes: Bytes, p: Pointers, generation: nat, cleaned: seq<string>,
      k: nat, seen: set<Envelope>)
    requires Accepts(c, d, bytes, p, seen) && generation < U64 && p.current.Some?
    requires forall name <- cleaned :: Unreferenced(p, name)
    requires k <= |ActivationOps(bytes, p, generation, cleaned)|
    ensures var e := Run(d, ActivationOps(bytes, p, generation, cleaned)[..k]);
            Inv(c, e, seen) && ReadPointers(e) == if k < 4 then ReadPointers(d) else Ok(p)
  {
    hide Accepts, Inv, ActivationOps, ReadPointers, Unreferenced;
    NewPointersAreValid(c, d, bytes, p, seen);
    if k < 4 {
      BeforeTheSwitch(c, d, bytes, p, generation, cleaned, k, seen);
    } else {
      AfterTheSwitch(c, d, bytes, p, generation, cleaned, k, seen);
    }
  }

  lemma BeforeTheSwitch(c: Setup, d: Disk, bytes: Bytes, p: Pointers, generation: nat, cleaned: seq<string>, k: nat,
      seen: set<Envelope>)
    requires Accepts(c, d, bytes, p, seen) && p.current.Some? && |p.current.value.digest| == 32 && k < 4
    ensures k <= |ActivationOps(bytes, p, generation, cleaned)|
    ensures var e := Run(d, ActivationOps(bytes, p, generation, cleaned)[..k]);
            Inv(c, e, seen) && ReadPointers(e) == ReadPointers(d)
  {
    hide Accepts, Publishing, PublishOps, Sound, ReadPointers, Run;
    AcceptsInv(c, d, bytes, p, seen);
    PublishLength(bytes, p, generation);
    assert ActivationOps(bytes, p, generation, cleaned)[..k] == PublishOps(bytes, p, generation)[..k];
    RunPublish(d, bytes, p, generation, k);
    OldPointersStay(c, d, bytes, p, generation, k, seen);
  }

  lemma AfterTheSwitch(c: Setup, d: Disk, bytes: Bytes, p: Pointers, generation: nat, cleaned: seq<string>, k: nat,
      seen: set<Envelope>)
    requires Accepts(c, d, bytes, p, seen) && p.current.Some? && |p.current.value.digest| == 32 && generation < U64
    requires forall name <- cleaned :: Unreferenced(p, name)
    requires 4 <= k <= |ActivationOps(bytes, p, generation, cleaned)|
    ensures var e := Run(d, ActivationOps(bytes, p, generation, cleaned)[..k]);
            Inv(c, e, seen) && ReadPointers(e) == Ok(p)
  {
    hide Accepts, Publishing, PublishOps, Sound, ReadPointers, Run, Unreferenced;
    var ops, publish := ActivationOps(bytes, p, generation, cleaned), PublishOps(bytes, p, generation);
    PublishLength(bytes, p, generation);
    var rest := cleaned[..k - 4];
    assert ops[..k] == publish + Removes(rest) && publish == publish[..4];
    RunConcat(d, publish, Removes(rest));
    RunPublish(d, bytes, p, generation, 4);
    NewPointersHold(c, d, bytes, p, generation, seen);
    CleaningKeeps(c, Publishing(d, bytes, p, generation, 4), p, rest, seen);
  }

  lemma AcceptsInv(c: Setup, d: Disk, bytes: Bytes, p: Pointers, seen: set<Envelope>)
    requires Accepts(c, d, bytes, p, seen)
    ensures Inv(c, d, seen)
  {
  }

  lemma PublishLength(bytes: Bytes, p: Pointers, generation: nat)
    requires p.current.Some?
    ensures |PublishOps(bytes, p, generation)| == 4
  {
  }

  /** Equal except for scratch files, which a crash may leave with any content. */
  ghost predicate SameButTemporary(d: Disk, e: Disk) {
    forall path :: !Temporary(path) ==> (path in d <==> path in e) && (path in d ==> d[path] == e[path])
  }

  lemma TornScratchIsHarmless(c: Setup, d: Disk, e: Disk, seen: set<Envelope>)
    requires Inv(c, d, seen) && SameButTemporary(d, e)
    ensures Inv(c, e, seen) && ReadPointers(e) == ReadPointers(d)
  {
    hide DeserializeSigned, ContentDigest, DeserializePointers;
    var p := ReadPointers(d).value;
    if p.current.Some? { PathShapes(p.current.value.digest); }
    if p.lkg.Some? { PathShapes(p.lkg.value.digest); }
    SoundFrame(c, d, e, p, seen);
  }
}
