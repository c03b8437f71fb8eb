/** The handle layer as the agent runs it: resolve the handle, work on the content, then stamp the entry. */
module DriveStore {
  import opened Wire
  import opened StorageFormat
  import opened CommitStore
  import opened Publish
  import opened FileView
  import opened EncryptedStore
  import opened NamespaceStore
  import opened D = Drive
  import N = Namespace
  import S = StoreRuns

  class LocalDrive {
    const content: LocalEncryptedStore
    const names: EncryptedNamespace

    ghost function State(): Drive
      reads content, names
    {
      Drive(names.State(), content.State())
    }

    constructor (content: LocalEncryptedStore, names: EncryptedNamespace)
      ensures this.content == content && this.names == names
    {
      this.content, this.names := content, names;
    }

    /** The file an open handle leads to. */
    method HandleFile(h: nat) returns (r: Result<string, StorageError>)
      ensures r == FileOfHandle(names.State(), h)
    {
      if h !in names.handles || names.handles[h].key !in names.files { return Err(NotFound); }
      r := Ok(names.files[names.handles[h].key].fileId);
    }

    method WriteHandle(h: nat, offset: nat, bytes: Bytes, now: nat) returns (r: Result<(), StorageError>)
      modifies content, names
      ensures State() == D.Next(old(State()), D.WriteHandle(h, offset, bytes, now))
      ensures r.Ok? <==>
                && FileOfHandle(old(names.State()), h).Ok?
                && ContentDone(old(State()), D.WriteHandle(h, offset, bytes, now))
    {
      var file := HandleFile(h);
      if file.Err? { return Err(file.error); }
      r := content.WriteAtOffset(StoreId(file.value), offset, bytes);
      if r.Ok? { names.StampEntry(names.handles[h].key, false, true, now); }
    }

    method TruncateHandle(h: nat, length: nat, now: nat) returns (r: Result<(), StorageError>)
      modifies content, names
      ensures State() == D.Next(old(State()), D.TruncateHandle(h, length, now))
      ensures r.Ok? <==> FileOfHandle(old(names.State()), h).Ok?
    {
      var file := HandleFile(h);
      if file.Err? { return Err(file.error); }
      content.TruncateTo(StoreId(file.value), length);
      names.StampEntry(names.handles[h].key, false, true, now);
      r := Ok(());
    }

    method ReadHandle(h: nat, now: nat) returns (r: Result<Bytes, StorageError>)
      modifies names
      ensures r == HandleRead(old(State()), h)
      ensures State() == D.Next(old(State()), D.ReadHandle(h, now))
    {
      var file := HandleFile(h);
      if file.Err? { return Err(file.error); }
      r := content.ReadFromPointer(StoreId(file.value), Selected(StoreId(file.value)));
      if r.Ok? { names.StampEntry(names.handles[h].key, true, false, now); }
    }

    method ReadPath(key: string, now: nat) returns (r: Result<Bytes, StorageError>)
      modifies names
      ensures r == PathRead(old(State()), key)
      ensures State() == D.Next(old(State()), D.ReadPath(key, now))
    {
      if key !in names.files || names.files[key].deletePending { return Err(NotFound); }
      var file := StoreId(names.files[key].fileId);
      r := content.ReadFromPointer(file, Selected(file));
      if r.Ok? { names.StampEntry(key, true, false, now); }
    }

    method FlushHandle(h: nat, tape: seq<Seal>, now: nat, p: N.Persist) returns (r: Result<(), StorageError>)
      requires D.Legal(State(), D.FlushHandle(h, tape, content.budget, now, p))
      modifies content, names
      ensures State() == D.Next(old(State()), D.FlushHandle(h, tape, old(content.budget), now, p))
      ensures r.Ok? <==>
                && FileOfHandle(old(names.State()), h).Ok?
                && ContentDone(old(State()), D.FlushHandle(h, tape, old(content.budget), now, p))
                && p == N.Written
    {
      hide ValidTape, ValidDraft, S.FlushStep, N.Stamp;
      var file := HandleFile(h);
      if file.Err? { return Err(file.error); }
      FlushIsLegal(State(), h, tape, content.budget, now, p);
      NothingStaged(content.State(), StoreId(file.value), tape, content.budget);
      var staged := StoreId(file.value) in content.staged;
      if staged {
        var flushed := content.FlushFile(StoreId(file.value), tape);
        if flushed.Err? { return Err(flushed.error); }
        names.StampEntry(names.handles[h].key, false, true, now);
      }
      r := names.PersistNamespace(p);
    }
  }

  lemma NothingStaged(s: S.Store, file: Bytes, tape: seq<Seal>, stop: nat)
    ensures file !in s.staged ==> S.FlushStep(s, file, tape, stop) == (s, Err(NotFound))
  {
  }

  lemma FlushIsLegal(d: Drive, h: nat, tape: seq<Seal>, stop: nat, now: nat, p: N.Persist)
    requires D.Legal(d, D.FlushHandle(h, tape, stop, now, p)) && FileOfHandle(d.ns, h).Ok?
    ensures var file := StoreId(FileOfHandle(d.ns, h).value);
            file in d.store.staged ==>
              ValidDraft(S.DraftOf(d.store, file)) && |tape| == Parts(S.DraftOf(d.store, file))
  {
  }
}
