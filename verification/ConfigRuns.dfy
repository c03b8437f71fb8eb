/** The cache over whole runs: it refines the in-memory set, keeps the newest version and survives crashes. */
module ConfigRuns {
  import opened Wire
  import opened ConfigFormat
  import opened ConfigCache

  /** The simple specification: the active configuration and the one before it. */
  datatype ActiveSet = ActiveSet(current: Option<Signed>, lkg: Option<Signed>)

  predicate Outdated(current: Option<Signed>, version: nat) {
    current.Some? && match Version(current.value) case Some(v) => version <= v case None => true
  }

  /** Activation of a verified, strictly newer configuration; anything else leaves the set alone. */
  function Activate(c: Setup, set0: ActiveSet, x: Signed): (ActiveSet, bool) {
    if c.verify(x).Some? || Version(x).None? || Outdated(set0.current, Version(x).value) then (set0, false)
    else (ActiveSet(Some(x), set0.current), true)
  }

  /**
   * A submitted byte string, the generation written with it, the staging directory's names at cleaning time, and
   * those among them whose removal fails.
   */
  datatype Submission = Submission(bytes: Bytes, generation: nat, listing: seq<string>, stuck: set<string>)

  function Cleaned(p: Pointers, listing: seq<string>, stuck: set<string>): (r: seq<string>)
    ensures forall name <- r :: Unreferenced(p, name)
  {
    if listing == [] then []
    else
      var rest := Cleaned(p, listing[1..], stuck);
      if Unreferenced(p, listing[0]) && listing[0] !in stuck then [listing[0]] + rest else rest
  }

  function SubmissionOps(s: Submission, p: Pointers): seq<Op>
    requires p.current.Some?
  {
    ActivationOps(s.bytes, p, s.generation, Cleaned(p, s.listing, s.stuck))
  }

  function Submit(c: Setup, d: Disk, s: Submission): Disk {
    match Decide(c, d, s.bytes)
    case Err(_) => d
    case Ok(p) => Run(d, SubmissionOps(s, p))
  }

  function SubmitAll(c: Setup, d: Disk, submissions: seq<Submission>): Disk {
    if submissions == [] then d
    else Submit(c, SubmitAll(c, d, submissions[..|submissions| - 1]), submissions[|submissions| - 1])
  }

  /** The same submission given to the in-memory set: only well-formed bundles addressed to the device reach it. */
  function Offer(c: Setup, set0: ActiveSet, bytes: Bytes): ActiveSet {
    match DeserializeSigned(bytes, c.sha)
    case Err(_) => set0
    case Ok(x) => if x.envelope.deviceId == c.device then Activate(c, set0, x).0 else set0
  }

  function OfferAll(c: Setup, set0: ActiveSet, submissions: seq<Submission>): ActiveSet {
    if submissions == [] then set0
    else Offer(c, OfferAll(c, set0, submissions[..|submissions| - 1]), submissions[|submissions| - 1].bytes)
  }

  /** Envelopes of the well-formed submissions are in `seen`, and generations fit 64 bits. */
  ghost predicate Known(c: Setup, s: Submission, seen: set<Envelope>) {
    s.generation < U64 && (DeserializeSigned(s.bytes, c.sha).Ok?
        ==> DeserializeSigned(s.bytes, c.sha).value.envelope in seen)
  }

  ghost predicate Shows(c: Setup, d: Disk, set0: ActiveSet) {
    CurrentBundle(c, d) == Ok(set0.current) && LkgBundle(c, d) == Ok(set0.lkg)
  }

  lemma SlotLoads(c: Setup, d: Disk, slot: Option<Slot>, seen: set<Envelope>)
    requires Holds(c, d, slot, seen)
    ensures LoadSlot(c, d, slot).Ok?
    ensures slot.Some? ==>
      LoadSlot(c, d, slot) == Ok(Some(DeserializeSigned(d[BundlePath(slot.value.digest)], c.sha).value))
      && Version(LoadSlot(c, d, slot).value.value) == Some(slot.value.version)
  {
    hide DeserializeSigned, ContentDigest;
  }

  lemma SlotLoadsSame(c: Setup, d: Disk, e: Disk, slot: Option<Slot>, seen: set<Envelope>)
    requires Holds(c, d, slot, seen) && SameBundle(d, e, slot)
    ensures LoadSlot(c, e, slot) == LoadSlot(c, d, slot)
  {
    hide DeserializeSigned, ContentDigest;
  }

  lemma CleaningKeepsBundle(d: Disk, p: Pointers, names: seq<string>, slot: Option<Slot>)
    requires (forall name <- names :: Unreferenced(p, name)) && (slot == p.current || slot == p.lkg) && ValidSlot(slot)
    ensures SameBundle(d, Run(d, Removes(names)), slot)
  {
    hide HexParse;
    if slot.Some? {
      HexParseEncode(slot.value.digest);
      RemovesKeep(d, names, BundlePath(slot.value.digest));
    }
  }

  /** What a completed activation leaves on disk: the new bundle as submitted, and the previous one untouched. */
  lemma ActivatedFiles(c: Setup, d: Disk, s: Submission, p: Pointers, seen: set<Envelope>)
    requires Accepts(c, d, s.bytes, p, seen) && s.generation < U64 && p.current.Some?
    ensures var e := Run(d, SubmissionOps(s, p));
            && Inv(c, e, seen) && ReadPointers(e) == Ok(p)
            && BundlePath(p.current.value.digest) in e && e[BundlePath(p.current.value.digest)] == s.bytes
            && SameBundle(d, e, p.lkg)
  {
    hide Accepts, Inv, Publishing, PublishOps, Unreferenced, ReadPointers, Run, SameBundle, Names;
    var names := Cleaned(p, s.listing, s.stuck);
    var ops, publish := SubmissionOps(s, p), PublishOps(s.bytes, p, s.generation);
    PublishLength(s.bytes, p, s.generation);
    ActivationPrefixIsSafe(c, d, s.bytes, p, s.generation, names, |ops|, seen);
    assert ops[..|ops|] == ops && publish[..4] == publish;
    NewPointersAreValid(c, d, s.bytes, p, seen);
    RunConcat(d, publish, Removes(names));
    RunPublish(d, s.bytes, p, s.generation, 4);
    var m := Publishing(d, s.bytes, p, s.generation, 4);
    PreviousIsOther(c, d, s.bytes, p, seen);
    OldBundleStays(d, s.bytes, p, s.generation, 4, p.lkg);
    CleaningKeepsBundle(m, p, names, p.lkg);
    CleaningKeepsBundle(m, p, names, p.current);
    BundlesThrough(d, m, Run(m, Removes(names)), p, s);
  }

  lemma PreviousIsOther(c: Setup, d: Disk, bytes: Bytes, p: Pointers, seen: set<Envelope>)
    requires Accepts(c, d, bytes, p, seen) && p.current.Some?
    ensures p.lkg.Some? ==> |p.lkg.value.digest| == 32 && p.lkg.value.digest != p.current.value.digest
  {
    hide Accepts, Ordered;
    NewPointersAreValid(c, d, bytes, p, seen);
    NewDigestIsFree(c, d, bytes, p, seen);
  }

  lemma BundlesThrough(d: Disk, m: Disk, e: Disk, p: Pointers, s: Submission)
    requires p.current.Some? && m == Publishing(d, s.bytes, p, s.generation, 4)
    requires SameBundle(d, m, p.lkg) && SameBundle(m, e, p.lkg) && SameBundle(m, e, p.current)
    ensures SameBundle(d, e, p.lkg)
    ensures BundlePath(p.current.value.digest) in e && e[BundlePath(p.current.value.digest)] == s.bytes
  {
    hide SerializePointers;
  }

  /** The set accepts exactly the submissions that the cache would install. */
  lemma SameDecision(c: Setup, d: Disk, set0: ActiveSet, bytes: Bytes, seen: set<Envelope>)
    requires Inv(c, d, seen) && CurrentBundle(c, d) == Ok(set0.current)
    ensures Offer(c, set0, bytes)
            == if Decide(c, d, bytes).Ok? then ActiveSet(Some(Admit(c, bytes).value.0), set0.current) else set0
  {
    hide DeserializeSigned, ContentDigest, Holds, LoadSlot, ReadPointers;
    var current := ReadPointers(d).value.current;
    SlotLoads(c, d, current, seen);
    NoSlotLoads(c, d);
  }

  lemma NoSlotLoads(c: Setup, d: Disk)
    ensures LoadSlot(c, d, None) == Ok(None)
  {
  }

  lemma ActivatedShows(c: Setup, d: Disk, set0: ActiveSet, s: Submission, p: Pointers, seen: set<Envelope>)
    requires Accepts(c, d, s.bytes, p, seen) && s.generation < U64 && p.current.Some?
        && CurrentBundle(c, d) == Ok(set0.current)
    ensures var e := Run(d, SubmissionOps(s, p));
            Inv(c, e, seen) && Shows(c, e, ActiveSet(Some(Admit(c, s.bytes).value.0), set0.current))
  {
    hide DeserializeSigned, ContentDigest, CollisionFree, Holds, SameBundle, SubmissionOps, Run, LoadSlot;
    ActivatedFiles(c, d, s, p, seen);
    var e := Run(d, SubmissionOps(s, p));
    SlotLoads(c, e, p.current, seen);
    SlotLoadsSame(c, d, e, p.lkg, seen);
  }

  lemma SubmitRefines(c: Setup, d: Disk, set0: ActiveSet, s: Submission, seen: set<Envelope>)
    requires Inv(c, d, seen) && Shows(c, d, set0) && Known(c, s, seen) && CollisionFree(c.sha, seen)
    ensures Inv(c, Submit(c, d, s), seen) && Shows(c, Submit(c, d, s), Offer(c, set0, s.bytes))
  {
    hide Inv, DeserializeSigned, ContentDigest, CollisionFree, SubmissionOps, Run, LoadSlot, ReadPointers, Offer;
    SameDecision(c, d, set0, s.bytes, seen);
    if Decide(c, d, s.bytes).Ok? {
      ActivatedShows(c, d, set0, s, Decide(c, d, s.bytes).value, seen);
    }
  }

  /**
   * The cache refines the in-memory set: after any byte strings have been submitted, whatever the generations
   * and listings (so with the cache reopened anywhere), both show the same current and last-known-good bundle.
   */
  lemma {:induction false} CacheRefinesSet(c: Setup, d: Disk, set0: ActiveSet, submissions: seq<Submission>,
      seen: set<Envelope>)
    requires Inv(c, d, seen) && Shows(c, d, set0) && CollisionFree(c.sha, seen) && forall s <- submissions ::
        Known(c, s, seen)
    ensures var e := SubmitAll(c, d, submissions);
            Inv(c, e, seen) && Shows(c, e, OfferAll(c, set0, submissions))
  {
    hide Inv, Shows, Known, CollisionFree, Submit, Offer;
    if submissions != [] {
      var before, s := submissions[..|submissions| - 1], submissions[|submissions| - 1];
      CacheRefinesSet(c, d, set0, before, seen);
      SubmitRefines(c, SubmitAll(c, d, before), OfferAll(c, set0, before), s, seen);
    }
  }

  lemma EmptyCache(c: Setup)
    ensures Inv(c, map[], {}) && Shows(c, map[], ActiveSet(None, None))
  {
  }

  lemma SeenGrows(c: Setup, d: Disk, a: set<Envelope>, b: set<Envelope>)
    requires Inv(c, d, a) && a <= b
    ensures Inv(c, d, b)
  {
  }

  /** `v` is the greatest version among the admissible submissions, or none is admissible. */
  ghost predicate Newest(c: Setup, submissions: seq<Submission>, v: Option<nat>) {
    && (v.Some? ==> exists s :: s in submissions && Admit(c, s.bytes).Ok? && Admit(c, s.bytes).value.1 == v.value)
    && (forall s <- submissions :: Admit(c, s.bytes).Ok? ==> v.Some? && Admit(c, s.bytes).value.1 <= v.value)
  }

  function CurrentVersion(d: Disk): Option<nat> {
    var p := ReadPointers(d);
    if p.Ok? && p.value.current.Some? then Some(p.value.current.value.version) else None
  }

  lemma SubmitVersion(c: Setup, d: Disk, s: Submission, seen: set<Envelope>)
    requires Inv(c, d, seen) && Known(c, s, seen) && CollisionFree(c.sha, seen)
    ensures Inv(c, Submit(c, d, s), seen)
    ensures CurrentVersion(Submit(c, d, s))
            == if Admit(c, s.bytes).Ok? && (CurrentVersion(d).None?
                || Admit(c, s.bytes).value.1 > CurrentVersion(d).value)
               then Some(Admit(c, s.bytes).value.1) else CurrentVersion(d)
  {
    hide DeserializeSigned, ContentDigest, CollisionFree, Holds, SameBundle, SubmissionOps, Run;
    if Decide(c, d, s.bytes).Ok? {
      ActivatedFiles(c, d, s, Decide(c, d, s.bytes).value, seen);
    }
  }

  /**
   * Starting empty, the current version is the greatest admissible one submitted, so it does not depend on the order.
   */
  lemma {:induction false} CurrentIsNewest(c: Setup, submissions: seq<Submission>, seen: set<Envelope>)
    requires CollisionFree(c.sha, seen) && forall s <- submissions :: Known(c, s, seen)
    ensures var e := SubmitAll(c, map[], submissions);
            Inv(c, e, seen) && Newest(c, submissions, CurrentVersion(e))
  {
    hide Admit, Inv, Known, CollisionFree, Submit, CurrentVersion;
    if submissions == [] {
      EmptyCache(c);
      SeenGrows(c, map[], {}, seen);
      EmptyVersion();
    } else {
      var before, s := submissions[..|submissions| - 1], submissions[|submissions| - 1];
      assert submissions == before + [s];
      CurrentIsNewest(c, before, seen);
      SubmitVersion(c, SubmitAll(c, map[], before), s, seen);
    }
  }

  lemma EmptyVersion()
    ensures CurrentVersion(map[]) == None
  {
  }

  /** Two orders of the same submissions end with the same current version. */
  lemma OrderDoesNotMatter(c: Setup, a: seq<Submission>, b: seq<Submission>, seen: set<Envelope>)
    requires CollisionFree(c.sha, seen) && (forall s <- a :: Known(c, s, seen)) && (forall s :: s in a <==> s in b)
    ensures CurrentVersion(SubmitAll(c, map[], a)) == CurrentVersion(SubmitAll(c, map[], b))
  {
    hide Admit, Inv, Known, CollisionFree, SubmitAll, CurrentVersion;
    CurrentIsNewest(c, a, seen);
    CurrentIsNewest(c, b, seen);
  }

  // ----- runs with crashes -----

  /** At no point of an activation is a bundle file that the pointers name overwritten or cleaned away. */
  lemma ReferencedBundlesStay(c: Setup, d: Disk, s: Submission, p: Pointers, k: nat, seen: set<Envelope>)
    requires Accepts(c, d, s.bytes, p, seen) && s.generation < U64 && p.current.Some? && k <= |SubmissionOps(s, p)|
    ensures var was, e := ReadPointers(d).value, Run(d, SubmissionOps(s, p)[..k]);
            SameBundle(d, e, was.current) && (k < 4 ==> SameBundle(d, e, was.lkg))
  {
    hide Accepts, ActivationOps, ReadPointers, Run, SameBundle, Sound, DeserializeSigned, Version, ContentDigest;
    AcceptsInv(c, d, s.bytes, p, seen);
    NewPointersAreValid(c, d, s.bytes, p, seen);
    OldSlots(c, d, s.bytes, p, seen);
    var was := ReadPointers(d).value;
    if k < 4 {
      StaysBefore(d, s, p, k, was.current);
      StaysBefore(d, s, p, k, was.lkg);
    } else {
      StaysAfter(d, s, p, k);
    }
  }

  lemma StaysBefore(d: Disk, s: Submission, p: Pointers, k: nat, slot: Option<Slot>)
    requires p.current.Some? && |p.current.value.digest| == 32 && k < 4
    requires slot.Some? ==> |slot.value.digest| == 32 && slot.value.digest != p.current.value.digest
    ensures k <= |SubmissionOps(s, p)| && SameBundle(d, Run(d, SubmissionOps(s, p)[..k]), slot)
  {
    hide Publishing, PublishOps, Run, SameBundle;
    PublishLength(s.bytes, p, s.generation);
    assert SubmissionOps(s, p)[..k] == PublishOps(s.bytes, p, s.generation)[..k];
    RunPublish(d, s.bytes, p, s.generation, k);
    OldBundleStays(d, s.bytes, p, s.generation, k, slot);
  }

  lemma StaysAfter(d: Disk, s: Submission, p: Pointers, k: nat)
    requires p.current.Some? && ValidPointers(p) && 4 <= k <= |SubmissionOps(s, p)|
    requires p.lkg.Some? ==> p.lkg.value.digest != p.current.value.digest
    ensures SameBundle(d, Run(d, SubmissionOps(s, p)[..k]), p.lkg)
  {
    hide Publishing, PublishOps, Unreferenced, Run, SameBundle;
    PublishLength(s.bytes, p, s.generation);
    var names, publish := Cleaned(p, s.listing, s.stuck), PublishOps(s.bytes, p, s.generation);
    var rest := names[..k - 4];
    assert SubmissionOps(s, p)[..k] == publish + Removes(rest) && publish == publish[..4];
    RunConcat(d, publish, Removes(rest));
    RunPublish(d, s.bytes, p, s.generation, 4);
    var m := Publishing(d, s.bytes, p, s.generation, 4);
    OldBundleStays(d, s.bytes, p, s.generation, 4, p.lkg);
    CleaningKeepsBundle(m, p, rest, p.lkg);
    SameBundleTrans(d, m, Run(m, Removes(rest)), p.lkg);
  }

  lemma OldSlots(c: Setup, d: Disk, bytes: Bytes, p: Pointers, seen: set<Envelope>)
    requires Accepts(c, d, bytes, p, seen) && p.current.Some?
    ensures var was := ReadPointers(d).value;
            && (was.current.Some? ==>
                  |was.current.value.digest| == 32 && was.current.value.digest != p.current.value.digest)
            && (was.lkg.Some? ==> |was.lkg.value.digest| == 32 && was.lkg.value.digest != p.current.value.digest)
  {
    NewDigestIsFree(c, d, bytes, p, seen);
  }

  lemma SameBundleTrans(d: Disk, m: Disk, e: Disk, slot: Option<Slot>)
    requires SameBundle(d, m, slot) && SameBundle(m, e, slot)
    ensures SameBundle(d, e, slot)
  {
  }

  /** One submission that is carried out up to file step `k`; a crash may leave anything in scratch files. */
  ghost predicate Step(c: Setup, d: Disk, s: Submission, k: nat, e: Disk) {
    match Decide(c, d, s.bytes)
    case Err(_) => SameButTemporary(d, e)
    case Ok(p) => k <= |SubmissionOps(s, p)| && SameButTemporary(Run(d, SubmissionOps(s, p)[..k]), e)
  }

  /** Greater or equal, with no version below every version. */
  predicate AtLeast(a: Option<nat>, b: Option<nat>) {
    b.Some? ==> a.Some? && b.value <= a.value
  }

  lemma StepIsSafe(c: Setup, d: Disk, s: Submission, k: nat, e: Disk, seen: set<Envelope>)
    requires Inv(c, d, seen) && Known(c, s, seen) && CollisionFree(c.sha, seen) && Step(c, d, s, k, e)
    ensures Inv(c, e, seen) && AtLeast(CurrentVersion(e), CurrentVersion(d))
    ensures ReadPointers(e) == ReadPointers(d) || ReadPointers(e) == Decide(c, d, s.bytes)
  {
    hide DeserializeSigned, ContentDigest, CollisionFree, Sound, SameButTemporary, Run, ActivationOps, ReadPointers;
    if Decide(c, d, s.bytes).Ok? {
      var p := Decide(c, d, s.bytes).value;
      var ops := SubmissionOps(s, p);
      ActivationPrefixIsSafe(c, d, s.bytes, p, s.generation, Cleaned(p, s.listing, s.stuck), k, seen);
      TornScratchIsHarmless(c, Run(d, ops[..k]), e, seen);
    } else {
      TornScratchIsHarmless(c, d, e, seen);
    }
  }

  /**
   * Over any run of submissions, each completed or cut short anywhere, every disk has readable pointers whose
   * bundles are in place and ordered, and the current version never goes down.
   */
  lemma {:induction false} CrashingRunsAreSafe(c: Setup, disks: seq<Disk>, submissions: seq<Submission>,
      steps: seq<nat>, i: nat, j: nat, seen: set<Envelope>)
    requires |disks| == |submissions| + 1 == |steps| + 1 && i <= j < |disks|
    requires forall n :: 0 <= n < |submissions| ==>
               Known(c, submissions[n], seen) && Step(c, disks[n], submissions[n], steps[n], disks[n + 1])
    requires Inv(c, disks[0], seen) && CollisionFree(c.sha, seen)
    ensures Inv(c, disks[i], seen) && Inv(c, disks[j], seen)
        && AtLeast(CurrentVersion(disks[j]), CurrentVersion(disks[i]))
    decreases i + j
  {
    hide Inv, Known, CollisionFree, Step, CurrentVersion;
    if i < j {
      CrashingRunsAreSafe(c, disks, submissions, steps, i, j - 1, seen);
      StepIsSafe(c, disks[j - 1], submissions[j - 1], steps[j - 1], disks[j], seen);
    } else if j > 0 {
      CrashingRunsAreSafe(c, disks, submissions, steps, j - 1, j - 1, seen);
      StepIsSafe(c, disks[j - 1], submissions[j - 1], steps[j - 1], disks[j], seen);
    }
  }
}
