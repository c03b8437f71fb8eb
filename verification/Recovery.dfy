/** Restart recovery of one file: authenticate the selected pointer, fall back to the previous
    one only when the selected pointer is missing, then remove generations no pointer reaches. */
module Recovery {
  import opened Wire
  import opened StorageFormat
  import opened CommitStore
  import opened CrashSafety

  datatype Report = Report(generation: nat, fromPrior: bool)

  /** The pointer recovery settles on, or the error it returns. */
  function Plan(b: Backing, file: Bytes): Result<Report, StorageError> {
    if Selected(file) !in b.disk then
      match ReadPointer(b, file, Previous(file))
      case Err(NotFound) => Err(RecoveryRequired)
      case Err(e) => Err(e)
      case Ok(_) =>
        var g :- CommitGeneration(b, file, Previous(file));
        Ok(Report(g, true))
    else
      match ReadPointer(b, file, Selected(file))
      case Err(NotFound) => Err(IntegrityFailure)
      case Err(e) => Err(e)
      case Ok(_) =>
        var g :- CommitGeneration(b, file, Selected(file));
        Ok(Report(g, false))
  }

  function Referenced(b: Backing, file: Bytes, selected: nat): set<Dir> {
    match CommitGeneration(b, file, Previous(file))
    case Ok(g) => {Generation(selected), Generation(g)}
    case Err(_) => {Generation(selected)}
  }

  /** Everything inside a generation directory that no pointer reaches. */
  function Doomed(b: Backing, file: Bytes, selected: nat): set<Path> {
    set p | p in b.disk && p.InGeneration? && p.file == file && p.dir !in Referenced(b, file, selected)
  }

  /** `order` lists `s` once each; directory listings come in no particular order. */
  ghost predicate Enumerates(order: seq<Path>, s: set<Path>) {
    && (forall i :: 0 <= i < |order| ==> order[i] in s)
    && (forall p :: p in s ==> p in order)
    && |order| == |s|
  }

  function RestoreOps(file: Bytes, fromPrior: bool): seq<Op> {
    if fromPrior then [Copy(Previous(file), Selected(file)), Write(Marker(file), Opaque)] else []
  }

  function RemoveOps(order: seq<Path>): (ops: seq<Op>)
    ensures |ops| == |order|
  {
    seq(|order|, i requires 0 <= i < |order| => Remove(order[i]))
  }

  function RecoverOps(file: Bytes, report: Report, order: seq<Path>): seq<Op> {
    RestoreOps(file, report.fromPrior) + RemoveOps(order)
  }

  function RecoveredBy(b: Backing, file: Bytes, report: Report, order: seq<Path>, k: nat): Backing
    requires k <= |RecoverOps(file, report, order)|
  {
    b.(disk := Run(b.disk, RecoverOps(file, report, order)[..k]))
  }

  function Elements(order: seq<Path>): set<Path> {
    set p | p in order
  }

  lemma {:induction false} RunRemoves(d: Disk, order: seq<Path>)
    ensures Run(d, RemoveOps(order)) == d - Elements(order)
  {
    if order == [] {
      assert d - Elements(order) == d;
    } else {
      var init := order[..|order| - 1];
      RunRemoves(d, init);
      assert RemoveOps(order)[..|order| - 1] == RemoveOps(init);
      assert order == init + [order[|order| - 1]];
      assert (d - Elements(init)) - {order[|order| - 1]} == d - Elements(order);
    }
  }

  function Restored(d: Disk, file: Bytes, fromPrior: bool, k: nat): Disk {
    if !fromPrior || k == 0 || Previous(file) !in d then d
    else if k == 1 then d[Selected(file) := d[Previous(file)]]
    else d[Selected(file) := d[Previous(file)]][Marker(file) := Opaque]
  }

  /** The recovered disk: the restored pointer, less the first removed paths. */
  lemma RecoveredDisk(b: Backing, file: Bytes, report: Report, order: seq<Path>, k: nat)
    requires k <= |RecoverOps(file, report, order)|
    requires report.fromPrior ==> Previous(file) in b.disk
    ensures var lead := |RestoreOps(file, report.fromPrior)|;
      RecoveredBy(b, file, report, order, k).disk ==
        Restored(b.disk, file, report.fromPrior, k) - Elements(order[..if k <= lead then 0 else k - lead])
  {
    var restore := RestoreOps(file, report.fromPrior);
    var ops := RecoverOps(file, report, order);
    var removed := order[..if k <= |restore| then 0 else k - |restore|];
    assert ops[..k] == restore[..Min(k, |restore|)] + RemoveOps(removed);
    RunAppend(b.disk, restore[..Min(k, |restore|)], RemoveOps(removed));
    RunRemoves(Run(b.disk, restore[..Min(k, |restore|)]), removed);
    if report.fromPrior && k > 0 {
      RunStep(b.disk, restore, 0);
      if k > 1 { RunStep(b.disk, restore, 1); }
    }
  }

  function Min(a: nat, b: nat): nat { if a <= b then a else b }

  lemma RecoverEffect(b: Backing, file: Bytes, report: Report, order: seq<Path>, k: nat)
    requires k <= |RecoverOps(file, report, order)|
    requires forall i :: 0 <= i < |order| ==> order[i].InGeneration?
    requires report.fromPrior ==> Previous(file) in b.disk
    ensures var d := RecoveredBy(b, file, report, order, k).disk;
      && (if report.fromPrior && k > 0
          then SameAt(b.disk, Previous(file), d, Selected(file))
          else SameAt(b.disk, Selected(file), d, Selected(file)))
      && (forall p :: p !in order && p != Selected(file) && p != Marker(file) ==> SameAt(b.disk, p, d, p))
      && (forall p :: p in b.disk && p !in order ==> p in d)
      && (forall p: Path :: p.InGeneration? && p in d ==> p in b.disk)
      && (k == |RecoverOps(file, report, order)| ==> forall p :: p in order ==> p !in d)
  {
    RecoveredDisk(b, file, report, order, k);
    assert k == |RecoverOps(file, report, order)| ==> order[..|order|] == order;
  }

  lemma SettledPointer(b: Backing, e: Backing, file: Bytes, p: Path, q: Path, g: nat)
    requires b.store == e.store && b.log == e.log
    requires ReadPointer(b, file, p).Ok? && p in {Selected(file), Previous(file)}
    requires p == Selected(file) ==> CommitGeneration(b, file, p) == Ok(g)
    requires forall x ::
        x !in Doomed(b, file, g) && x != Selected(file) && x != Marker(file) ==> SameAt(b.disk, x, e.disk, x)
    requires SameAt(b.disk, p, e.disk, q)
    ensures ReadPointer(e, file, q) == ReadPointer(b, file, p)
    ensures CommitGeneration(e, file, q) == CommitGeneration(b, file, p)
  {
    var h := CommitGeneration(b, file, p).value;
    assert Generation(h) in Referenced(b, file, g);
    assert SameGeneration(b.disk, e.disk, file, h);
    ReadPointerFrame(b, e, file, p, q);
  }

  /** What a successful plan says about the pointers. */
  ghost predicate Settles(b: Backing, file: Bytes, report: Report) {
    && Pointer(b.disk, file) in b.disk
    && CommitGeneration(b, file, Pointer(b.disk, file)) == Ok(report.generation)
    && report.fromPrior == (Selected(file) !in b.disk)
  }

  lemma PlanSettles(b: Backing, file: Bytes)
    requires Plan(b, file).Ok?
    ensures Settles(b, file, Plan(b, file).value)
    ensures ReadPointer(b, file, Pointer(b.disk, file)).Ok?
  {
  }

  lemma RecoveredPrevious(b: Backing, file: Bytes, report: Report, order: seq<Path>, k: nat)
    requires Sound(b, file) && Settles(b, file, report)
    requires Enumerates(order, Doomed(b, file, report.generation))
    requires k <= |RecoverOps(file, report, order)|
    ensures var e := RecoveredBy(b, file, report, order, k);
      && SameAt(b.disk, Previous(file), e.disk, Previous(file))
      && (Previous(file) in e.disk ==>
          && ReadPointer(e, file, Previous(file)) == ReadPointer(b, file, Previous(file))
          && CommitGeneration(e, file, Previous(file)) == CommitGeneration(b, file, Previous(file)))
  {
    RecoverEffect(b, file, report, order, k);
    if Previous(file) in b.disk {
      SettledPointer(b, RecoveredBy(b, file, report, order, k), file, Previous(file), Previous(file),
          report.generation);
    }
  }

  lemma RecoveredSelected(b: Backing, file: Bytes, report: Report, order: seq<Path>, k: nat)
    requires Sound(b, file) && Settles(b, file, report)
    requires Enumerates(order, Doomed(b, file, report.generation))
    requires k <= |RecoverOps(file, report, order)|
    ensures var e := RecoveredBy(b, file, report, order, k);
      && (Selected(file) in e.disk <==> !report.fromPrior || k > 0)
      && (Selected(file) in e.disk ==>
          && ReadPointer(e, file, Selected(file)) == ReadPointer(b, file, Pointer(b.disk, file))
          && CommitGeneration(e, file, Selected(file)) == Ok(report.generation))
  {
    RecoverEffect(b, file, report, order, k);
    if !report.fromPrior || k > 0 {
      SettledPointer(b, RecoveredBy(b, file, report, order, k), file, Pointer(b.disk, file), Selected(file),
          report.generation);
    }
  }

  /** Every prefix of a recovery keeps both pointers readable and the committed content; it deletes
      nothing a pointer reaches. */
  lemma RecoveryIsSafe(b: Backing, file: Bytes, order: seq<Path>, k: nat)
    requires Sound(b, file) && Plan(b, file).Ok?
    requires Enumerates(order, Doomed(b, file, Plan(b, file).value.generation))
    requires k <= |RecoverOps(file, Plan(b, file).value, order)|
    ensures var e := RecoveredBy(b, file, Plan(b, file).value, order, k);
      && Sound(e, file)
      && Committed(e, file) == Committed(b, file)
      && (forall p :: p in b.disk && p !in e.disk ==> p in Doomed(b, file, Plan(b, file).value.generation))
  {
    PlanSettles(b, file);
    var report := Plan(b, file).value;
    RecoveredPrevious(b, file, report, order, k);
    RecoveredSelected(b, file, report, order, k);
    RecoverEffect(b, file, report, order, k);
  }

  lemma NothingDoomed(b: Backing, file: Bytes, report: Report, order: seq<Path>)
    requires Sound(b, file) && Settles(b, file, report) && Enumerates(order, Doomed(b, file, report.generation))
    ensures var e := RecoveredBy(b, file, report, order, |RecoverOps(file, report, order)|);
      Doomed(e, file, report.generation) == {}
  {
    hide ReadPointer, RecoveredBy;
    var k := |RecoverOps(file, report, order)|;
    var e := RecoveredBy(b, file, report, order, k);
    RecoverEffect(b, file, report, order, k);
    RecoveredPrevious(b, file, report, order, k);
    assert Referenced(e, file, report.generation) == Referenced(b, file, report.generation);
    assert forall p :: p in Doomed(b, file, report.generation) ==> p !in e.disk;
  }

  /** A completed recovery makes `read` return the committed content, keeps exactly the referenced
      generations, and a second recovery picks the same generation and makes no filesystem call. */
  lemma RecoveryCompletes(b: Backing, file: Bytes, order: seq<Path>)
    requires Sound(b, file) && Plan(b, file).Ok?
    requires Enumerates(order, Doomed(b, file, Plan(b, file).value.generation))
    ensures var report := Plan(b, file).value;
      var e := RecoveredBy(b, file, report, order, |RecoverOps(file, report, order)|);
      && Committed(b, file).Some?
      && Read(e, file) == Ok(Committed(b, file).value)
      && Plan(e, file) == Ok(Report(report.generation, false))
      && Doomed(e, file, report.generation) == {}
      && forall again :: Enumerates(again, Doomed(e, file, report.generation)) ==>
          RecoverOps(file, Plan(e, file).value, again) == []
  {
    hide ReadPointer, CommitGeneration, RecoveredBy, Doomed;
    PlanSettles(b, file);
    var report := Plan(b, file).value;
    RecoveredSelected(b, file, report, order, |RecoverOps(file, report, order)|);
    NothingDoomed(b, file, report, order);
  }

  /** In a sound store recovery fails exactly when nothing was ever published. */
  lemma RecoveryRequiredExactly(b: Backing, file: Bytes)
    requires Sound(b, file)
    ensures Plan(b, file).Err? <==> Selected(file) !in b.disk && Previous(file) !in b.disk
    ensures Plan(b, file).Err? ==> Plan(b, file) == Err(RecoveryRequired)
    ensures Committed(b, file).None? <==> Plan(b, file).Err?
  {
  }
}
