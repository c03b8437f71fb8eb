# Verification of the device-local storage, configuration and enrollment core

This project models the parts of the data-loss-prevention agent and server whose
correctness is hardest to see by reading: what survives a crash, what a handle or a
pointer can refer to, and what a decoder accepts. Every model function follows the
branches, constants and error cases of the code it stands for; every class method
is proved equal to such a function, and the theorems are about those functions.

**Crash-safe encrypted file commit.** A flush cuts the staged bytes into 4 MiB
chunks, seals chunks, manifest and commit record, and publishes them with a pointer
swap. `CommitStore`, `Publish` and `CrashSafety` model the disk as a map of paths, each
filesystem call as one step, and prove what holds after any prefix of the calls;
`Recovery` does the same for fallback and cleanup; `StoreRuns` takes whole runs over
any number of files, `FlushProgress` says when a flush gets through; `NoMixing` drops
every assumption about the disk and keeps only the cipher. `StoreBytes` ties the
record-level disk to bytes through `StorageFormat`. `EncryptedStore` and
`StorageCursor` are the imperative forms.

**Encrypted namespace with handles.** `Namespace` holds the operations on the three
maps (directories, files, open handles) and the stored index, with the outcome of
each index write as an input: written, refused, or written with a failing directory
flush. `NamespaceSafety` proves the invariant over all runs, `FileView` what callers
observe, `Renames` the subtree move, `PendingDeletes` the life of files marked for
deletion, `Listing` the directory listing, `NamespaceIndex` and `IndexedRuns` that the
index text reads back. `Desk` is the namespace as callers see it (paths to files, the
saved tree, handles to files), and every operation of every run is a step on it.
`NamespaceStore` is the imperative form with its move loops and rollback copies.
`VirtualPaths`, `Keys`, `Texts` and `Decimal` supply paths, key trees, splitting and numbers.

**Content through handles and paths.** `Drive` joins namespace and store: handles and
paths lead to file ids, ids to encrypted content. Calls through handles and paths run
with namespace calls, recoveries, index seals and reopenings in any order; over every
run the reads are those of plain byte arrays, and a call touches only the file it leads
to. `DriveStore` is the imperative handle layer. `Restart` shows what a process restart,
which sets both counters back, does to the two freshness conditions.

**Signed-configuration cache.** `ConfigFormat` has the codecs, `ConfigCache` the file
steps of an activation and their prefixes, `ConfigRuns` the refinement of the in-memory
set and runs with crashes, `ConfigStore` the imperative reader, cache and set.

**Enrollment authority ledger.** `AuthorityLedger` has the three transactions on the
authority, credential and revocation tables and safety over every interleaving.

**Algorithms.** `CivilDate` (certificate dates), `Wildmatch` (drive wildcard patterns),
`BoundedTail` and `Utf8` (the bounded log tail).

## What turned out to need a condition

- A flush is atomic exactly when its generation number differs from the committed one;
  the counter is a process static that starts again at 1.
- A new file shows no earlier content exactly when nothing is published under the id it is
  given; the id counter is a process static as well.
- The wildcard loop is right on a name exactly when the name has no `*`.
- A replacing rename of a file onto its own key fails, and deletes or marks the file unless
  a handle forbids it or the index write fails; an empty directory renamed onto itself with
  replacement is deleted, and the call can succeed.
- A failing index write on the last close leaves a file marked for deletion without handles.
- The synthetic root can be created as a directory, and then the index cannot be loaded.
- A pointer record cut off before a version is read as version zero; its length tells.
- A certificate whose second clock read falls on a later day than the first exceeds the
  agent's length check.

For each, a lemma below shows the failing case and the exact condition.

## Assumptions

Each filesystem call is one atomic step, except that the contents of scratch files after
a crash are arbitrary in the configuration cache. AES-GCM is an ideal cipher (section 7 of
NIST SP 800-38D): a log of what was sealed decides what opens. SHA-256 is an unknown
function that tells the submitted envelopes apart. Clock readings, random nonces and
ciphertexts, signature verdicts, directory listings and input/output failures are inputs.

## Model

| member | source | states |
|---|---|---|
| `StorageFormat.AadInjective` | crates/dlp-crypto/src/aead.rs:40-53 | authenticated header bytes determine all seven header fields, so a record sealed for one place opens at no other |
| `StorageFormat.DecodeEncodeRecord` | crates/dlp-storage/src/format.rs:73-139 | every record with valid identifiers and an admissible ciphertext survives encoding and decoding |
| `StorageFormat.EncodeDecodeRecord` | crates/dlp-storage/src/format.rs:99-139 | whatever the record decoder accepts is a valid record whose encoding is exactly the input: no second spelling |
| `StorageFormat.DecodeEncodeManifest` | crates/dlp-storage/src/format.rs:150-195 | valid manifests survive encoding and decoding |
| `StorageFormat.EncodeDecodeManifest` | crates/dlp-storage/src/format.rs:168-195 | whatever the manifest decoder accepts is a valid manifest whose encoding is exactly the input |
| `StorageFormat.PublishedManifestDecodes` | crates/dlp-storage/src/format.rs:168-195 | a manifest whose sealed record fits the record limit has too few chunks to reach the decoder limit, so every published manifest decodes |
| `StorageFormat.DecodeEncodeCommit` | crates/dlp-storage/src/format.rs:201-225 | valid commit records survive encoding and decoding |
| `StorageFormat.EncodeDecodeCommit` | crates/dlp-storage/src/format.rs:212-225 | whatever the commit decoder accepts is a valid commit whose encoding is exactly the input |
| `StorageCursor.Cursor.TakeBytes` | crates/dlp-storage/src/format.rs:238-249 | the cursor hands out the next bytes and advances past them, or fails when fewer are left |
| `StorageCursor.Cursor.Integer` | crates/dlp-storage/src/format.rs:250-276 | fixed-width little-endian integers are read with their mathematical value |
| `StorageCursor.ReadRecord` | crates/dlp-storage/src/format.rs:99-139 | the cursor-driven record decoder computes the record decoding function that the codec lemmas are about, errors included |
| `StorageCursor.ReadManifest` | crates/dlp-storage/src/format.rs:168-195 | the cursor-driven manifest decoder with its length loop computes the manifest decoding function |
| `StorageCursor.ReadCommit` | crates/dlp-storage/src/format.rs:212-225 | the cursor-driven commit decoder computes the commit decoding function |
| `StorageCursor.WriteManifest` | crates/dlp-storage/src/format.rs:151-167 | appending field by field gives the manifest encoding |
| `Publish.ConcatChunks` | crates/dlp-storage/src/store.rs:248-269 | cutting content into 4 MiB chunks and joining them gives the content back |
| `Publish.InstalledReads` | crates/dlp-storage/src/store.rs:400-453 | a generation whose records are all in place, reached through a commit pointer, reads back as exactly the staged bytes |
| `CrashSafety.CommittedDuringFlush` | crates/dlp-storage/src/store.rs:231-345 | crash atomicity: stopping a flush after any number of filesystem calls leaves the committed content old until the publishing rename and new from it on |
| `CrashSafety.SoundDuringFlush` | crates/dlp-storage/src/store.rs:231-345 | both pointers stay readable at every stopping point of a flush with a fresh generation |
| `CrashSafety.FallbackIsReplacedContent` | crates/dlp-storage/src/store.rs:313-334 | once a replacement is published the fallback pointer reads exactly what the file read before |
| `CrashSafety.ReusedGenerationLosesContent` | crates/dlp-storage/src/store.rs:241-265 | with a generation number equal to the committed one there is a stopping point before publication where the old content is gone |
| `CrashSafety.AtomicExactlyWhenGenerationIsNew` | crates/dlp-storage/src/store.rs:231-345 | a flush is atomic if and only if its generation number differs from the committed one |
| `FlushProgress.FlushSucceedsExactly` | crates/dlp-storage/src/store.rs:231-345 | a flush without input or output failure or repeated nonce succeeds if and only if its manifest fits one record |
| `FlushProgress.FlushedIsReadable` | crates/dlp-storage/src/store.rs:231-345 | such a flush makes exactly the staged bytes readable, or leaves reads alone when the manifest does not fit |
| `FlushProgress.FirstFlushIsReadable` | crates/dlp-storage/src/store.rs:231-345 | from an empty store, with some nonces and ciphertexts, any content whose manifest fits becomes readable |
| `Recovery.RecoveryIsSafe` | crates/dlp-storage/src/store.rs:349-389 | every prefix of a recovery keeps both pointers readable and the committed content, and removes only generations no pointer reaches |
| `Recovery.RecoveryCompletes` | crates/dlp-storage/src/recovery.rs:26-37 | a finished recovery makes reads return the committed content; a second one selects the same generation and makes no filesystem call |
| `Recovery.RecoveryRequiredExactly` | crates/dlp-storage/src/store.rs:349-389 | in a sound store recovery fails exactly when nothing was ever published, and then with the recovery-required error |
| `StoreRuns.OtherFilesUnaffected` | crates/dlp-storage/src/store.rs:206-345 | no operation on one file changes what any other file reads, successful or not |
| `StoreRuns.StepKeepsFileGood` | crates/dlp-storage/src/store.rs:206-389 | every operation, completed or cut short, keeps a file good and changes its committed content only when it publishes |
| `StoreRuns.RunsAreSafe` | crates/dlp-storage/src/store.rs:206-389 | over any run of staged writes, interrupted or completed flushes, recoveries and reopenings, the committed content is the last one published |
| `StoreRuns.RecoveryAfterAnyRun` | crates/dlp-storage/src/recovery.rs:26-37 | after any run an uninterrupted recovery makes reads return what was last published, or reports that recovery is required if nothing was |
| `StoreRuns.Splice` | crates/dlp-storage/src/store.rs:211-230 | a write at an offset replaces exactly the covered bytes, keeps the rest and fills a gap with zeros |
| `StoreRuns.FileIoRefinesByteArray` | crates/dlp-storage/src/store.rs:206-345 | writes, truncations and flushes of one file, through chunking, sealing and reassembly, show the same bytes as the same edits on a plain byte sequence; reads see flushed content only |
| `Drive.StepKeepsInv` | crates/dlp-storage/src/store.rs:549-832 | every call through a handle or path, every namespace call, recovery, index seal and reopening keeps the joint invariant: consistent namespace, good store, all ids issued, and nothing stored or staged under an id not yet given out |
| `Drive.RunsKeepInv` | crates/dlp-storage/src/store.rs:549-832 | the joint invariant after any run of such calls |
| `Drive.HandleIoRefinesByteArray` | crates/dlp-storage/src/store.rs:655-759 | over any run of handle, path and namespace calls in which the content operations on a file succeed, every path and every handle that then leads to the file reads the flushed bytes of the plain file the same edits give, across renames, delete marks and reopenings |
| `Drive.HandleCallsAreLocal` | crates/dlp-storage/src/store.rs:655-759 | a call through a handle changes what a path reads only if handle and path lead to the same file |
| `Drive.HandlesAreLocal` | crates/dlp-storage/src/store.rs:655-717 | a call through a handle changes what another handle reads only if both lead to the same file |
| `Drive.NamingKeepsHandleReads` | crates/dlp-storage/src/store.rs:760-832 | creating, opening, renaming, deleting and closing never change what a handle reads that stays open |
| `Drive.NewFileIsEmpty` | crates/dlp-storage/src/store.rs:601-654 | a newly created file shows no earlier content, by path or by handle |
| `Drive.CreatedFileHoldsWhatWasWritten` | crates/dlp-storage/src/store.rs:601-759 | from its creation on, a file reads exactly what was written and flushed through handles that led to it |
| `Drive.NewFileShowsNothingExactly` | crates/dlp-storage/src/store.rs:618-620 | with any id counter, a newly created file shows no earlier content if and only if the store holds no selected pointer under the id it is given; otherwise it shows that content |
| `DriveStore.LocalDrive.HandleFile` | crates/dlp-storage/src/store.rs:1339-1346 | a handle leads to the file of its entry, or to the not-found error |
| `DriveStore.LocalDrive.WriteHandle` | crates/dlp-storage/src/store.rs:655-670 | resolving, splicing and stamping is the joint write step; it succeeds exactly when the handle resolves and the range does not overflow |
| `DriveStore.LocalDrive.ReadHandle` | crates/dlp-storage/src/store.rs:671-679 | returns what the handle reads in the joint state, error by error, and stamps the access time only on success |
| `DriveStore.LocalDrive.TruncateHandle` | crates/dlp-storage/src/store.rs:680-701 | resolving, resizing and stamping is the joint truncation step |
| `DriveStore.LocalDrive.FlushHandle` | crates/dlp-storage/src/store.rs:702-717 | flushing what is staged, stamping and writing the index is the joint flush step on a device that fails after any number of calls; it succeeds exactly when handle, content and index write do |
| `DriveStore.LocalDrive.ReadPath` | crates/dlp-storage/src/store.rs:741-759 | returns what the path reads in the joint state, error by error, and stamps the access time only on success |
| `Restart.RestartLosesContent` | crates/dlp-storage/src/store.rs:16-16 | after a first flush and a restart that gives out the same generation again, flushing any other content with valid fresh nonces passes a point, before publication, where the committed content is gone |
| `Restart.RestartShowsOldContent` | crates/dlp-storage/src/store.rs:17-17 | with the id counter set back to a flushed file, creating a file succeeds and its path reads the old content |
| `NoMixing.ReadsOneGeneration` | crates/dlp-storage/src/store.rs:400-453 | for any disk contents, a successful read returns the bytes staged for one single generation of that file in that store |
| `NoMixing.TamperedDiskReadsOneGeneration` | crates/dlp-storage/src/store.rs:1005-1039 | the same after any run, namespace indexes sealed under the same key included, followed by any replacement of the whole backing disk |
| `NoMixing.IndexIsNoManifest` | crates/dlp-storage/src/store.rs:1109-1124 | a namespace index, sealed as a manifest record, is never accepted as a file manifest |
| `NoMixing.OversizedManifestRejected` | crates/dlp-storage/src/format.rs:168-195 | a manifest with more chunks than the limit is rejected by its own decoder |
| `StoreBytes.FlushAgrees` | crates/dlp-storage/src/store.rs:1040-1059 | every record a flush writes encodes, so the flush on byte files has exactly the modelled effect on record files |
| `StoreBytes.RunAgrees` | crates/dlp-storage/src/store.rs:1040-1059 | running filesystem calls on byte files and decoding agrees with running them on decoded records |
| `StoreBytes.SealAgrees` | crates/dlp-storage/src/format.rs:22-72 | an ideal cipher keyed by authenticated bytes, nonce and ciphertext stays in step with the log of sealed records |
| `StoreBytes.ReadPartAgrees` | crates/dlp-storage/src/store.rs:1023-1059 | reading, checking and opening a record from bytes gives what the record-level model gives, for every byte content |
| `EncryptedStore.LocalEncryptedStore.ReadFromPointer` | crates/dlp-storage/src/store.rs:400-453 | the reading loop with its nonce set returns what the reading function says, for every disk |
| `EncryptedStore.LocalEncryptedStore.WriteAtOffset` | crates/dlp-storage/src/store.rs:211-230 | staging a write at an offset is the splice step, with the overflow error leaving the base staged |
| `EncryptedStore.LocalEncryptedStore.TruncateTo` | crates/dlp-storage/src/store.rs:680-701 | truncation stages the resized content |
| `EncryptedStore.LocalEncryptedStore.FlushFile` | crates/dlp-storage/src/store.rs:231-345 | the flush with its chunk loop, call by call on a device that fails after any number of calls, is the flush step of the run model |
| `EncryptedStore.LocalEncryptedStore.WriteChunks` | crates/dlp-storage/src/store.rs:248-269 | the chunk loop seals and writes the chunks in order and collects their lengths and nonces |
| `EncryptedStore.LocalEncryptedStore.SwapPointer` | crates/dlp-storage/src/store.rs:313-334 | the pointer swap performs the planned calls in order until the device fails |
| `EncryptedStore.LocalEncryptedStore.RecoverFile` | crates/dlp-storage/src/store.rs:349-389 | recovery by fallback and cleanup, on a device that fails after any number of calls, is the recovery step of the run model |
| `VirtualPaths.ParentIsBeforeLastSlash` | crates/dlp-storage/src/path.rs:72-80 | splitting a key, dropping the last piece and joining gives the part before the last slash, or nothing for top-level keys |
| `VirtualPaths.ParsedIsClean` | crates/dlp-storage/src/path.rs:34-61 | keys and names of accepted paths are non-empty and hold no forbidden or control character |
| `VirtualPaths.KeyIsFoldedComponents` | crates/dlp-storage/src/path.rs:34-61 | two accepted paths share a key exactly when their components agree up to ASCII case |
| `VirtualPaths.DisplayPathParses` | crates/dlp-storage/src/path.rs:69-71 | showing an accepted path and parsing it again gives the same path, within the length limit |
| `NamespaceSafety.NothingUnder` | crates/dlp-storage/src/store.rs:1302-1308 | when parents are directories, nothing lies below a key that is no directory |
| `NamespaceSafety.CreateDirectoryKeeps` | crates/dlp-storage/src/store.rs:549-574 | creating a directory keeps the namespace invariant however the index write ends |
| `NamespaceSafety.CreateOrOpenKeeps` | crates/dlp-storage/src/store.rs:601-654 | opening or creating a file keeps the invariant; a new file gets an id no live file has |
| `NamespaceSafety.CloseHandleKeeps` | crates/dlp-storage/src/store.rs:718-740 | closing a handle keeps the invariant even when the index write fails |
| `NamespaceSafety.DeleteKeeps` | crates/dlp-storage/src/store.rs:809-832 | deleting a file or directory keeps the invariant |
| `NamespaceSafety.RenameDirectoryKeeps` | crates/dlp-storage/src/store.rs:862-936 | moving a directory keeps parents, ids and handles consistent, with or without replacement |
| `NamespaceSafety.RenameKeeps` | crates/dlp-storage/src/store.rs:760-808 | renaming keeps the invariant for both replace values and all index outcomes |
| `NamespaceSafety.StepKeeps` | crates/dlp-storage/src/store.rs:549-832 | every operation keeps the invariant for all arguments |
| `NamespaceSafety.RunsAreSafe` | crates/dlp-storage/src/store.rs:549-965 | in every reachable namespace each parent is a directory, each handle resolves to a file and live ids differ; the stored index has the same properties and no marked file |
| `Renames.DirectoryRenameIsRelocation` | crates/dlp-storage/src/store.rs:862-936 | without replacement a directory rename succeeds exactly when the target is free, parented and outside the tree; it is then an injective relocation that changes only the root name and change times and keeps every handle on its file, and any failure restores all three maps |
| `Renames.RenameThereAndBack` | crates/dlp-storage/src/store.rs:862-936 | renaming a directory and back restores every key, name, id and handle; only change times differ |
| `Renames.ReplacingRenameKeepsFile` | crates/dlp-storage/src/store.rs:760-808 | a replacing file rename keeps the file reachable, however its index writes end, if and only if the target key differs from the source key, a handle forbids deletion, or the file is closed and the first index write fails |
| `Renames.DirectoryRenameKeepsDirectory` | crates/dlp-storage/src/store.rs:862-936 | a directory rename, however its index writes end, loses its directory exactly when it replaces an empty directory by itself and the first index write succeeds |
| `FileView.PathReadsSeeView` | crates/dlp-storage/src/store.rs:741-759 | reading by path finds exactly the files of the path-to-file view and leaves the view alone |
| `FileView.OpenAddsAtMostOne` | crates/dlp-storage/src/store.rs:601-654 | opening succeeds exactly for visible files, or for free keys under a directory when creation and the index write go through; it adds at most one entry, gives a new handle on that file and moves no other handle |
| `FileView.CloseKeepsView` | crates/dlp-storage/src/store.rs:718-740 | closing changes neither what paths show nor any other handle |
| `FileView.DeleteRemovesOne` | crates/dlp-storage/src/store.rs:809-832 | deleting a file succeeds exactly when no handle forbids it and removes one entry from view, leaving open handles on their files |
| `FileView.DeleteDirectoryRemovesOne` | crates/dlp-storage/src/store.rs:938-965 | a directory is deleted exactly when it is empty and not the root, and nothing else changes |
| `FileView.CreateDirectoryAddsOne` | crates/dlp-storage/src/store.rs:549-574 | a directory is created exactly at a free key under a directory, with its four times set, and nothing else changes |
| `FileView.RenameMovesOne` | crates/dlp-storage/src/store.rs:760-808 | without replacement a file rename succeeds exactly for a visible source and a free, parented target; it moves one entry, and every handle keeps its file |
| `FileView.RenameReplacesOne` | crates/dlp-storage/src/store.rs:774-808 | with replacement the rename succeeds exactly when the target is closed and both index writes go through, and then drops the target and moves the source there; failing, it leaves the view alone or has removed the target, each in exactly stated cases |
| `FileView.DirectoryRenameMovesView` | crates/dlp-storage/src/store.rs:862-936 | a directory rename carries every visible file to its new path and creates or loses none |
| `PendingDeletes.MarkedFilesAreOpen` | crates/dlp-storage/src/store.rs:718-832 | while index writes succeed, every reachable file marked for deletion has an open handle |
| `PendingDeletes.MarkedFilesOnlyDrain` | crates/dlp-storage/src/store.rs:601-936 | over any further calls a marked file only loses handles, exists exactly while one is left, stays marked across directory renames and is in no index written meanwhile |
| `PendingDeletes.LastCloseRemoves` | crates/dlp-storage/src/store.rs:718-740 | closing the last handle removes the marked file from the namespace and the index |
| `PendingDeletes.CloseStrandsExactlyOnFailure` | crates/dlp-storage/src/store.rs:718-740 | closing a handle leaves a marked file without handles exactly when it was the last handle and the index write failed |
| `PendingDeletes.MarkedFilesAreInvisible` | crates/dlp-storage/src/store.rs:741-759 | after any further calls a marked file still cannot be read by path, opened, listed, queried or found in a new index |
| `PendingDeletes.ListingShowsChildren` | crates/dlp-storage/src/store.rs:585-594 | a listing shows exactly the directories and unmarked files whose parent is the listed directory |
| `Listing.ReadDirectory` | crates/dlp-storage/src/store.rs:575-597 | the loops over both maps and the sort give the names of exactly these children, each child once, ordered by their names without regard to ASCII case |
| `Desk.StepRefines` | crates/dlp-storage/src/store.rs:549-965 | every namespace operation, however its index writes end, is a step on what callers see: paths with their files, directories, the tree the stored index would restore, and the files behind handles; success reaches the stated tree, failure changes nothing except that a replacing rename may have removed its target |
| `Desk.RunsRefineDesk` | crates/dlp-storage/src/store.rs:549-965 | in any run from the empty namespace each call is such a step |
| `Desk.StepKeepsOpen` | crates/dlp-storage/src/store.rs:601-936 | no step moves an open handle to another file |
| `Desk.StepKeepsIssued` | crates/dlp-storage/src/store.rs:618-620 | every file on show, saved or open keeps an id below the counter |
| `NamespaceStore.EncryptedNamespace.CreateDirectory` | crates/dlp-storage/src/store.rs:549-574 | the map update with rollback is the create-directory step |
| `NamespaceStore.EncryptedNamespace.CreateOrOpen` | crates/dlp-storage/src/store.rs:601-654 | the map updates with rollback are the open step, ids and handle numbers included |
| `NamespaceStore.EncryptedNamespace.CloseHandle` | crates/dlp-storage/src/store.rs:718-740 | the close step, with the files restored but the handle gone when the index write fails |
| `NamespaceStore.EncryptedNamespace.Delete` | crates/dlp-storage/src/store.rs:809-832 | the delete step: removal, marking or refusal |
| `NamespaceStore.EncryptedNamespace.DeleteDirectory` | crates/dlp-storage/src/store.rs:938-965 | the delete-directory step |
| `NamespaceStore.EncryptedNamespace.Rename` | crates/dlp-storage/src/store.rs:760-808 | the rename step, with the loop over handles and rollback of both maps |
| `NamespaceStore.EncryptedNamespace.RenameDirectory` | crates/dlp-storage/src/store.rs:862-936 | the in-place loops over directories, files and handles, in any key order, are the directory-rename step, and rollback restores all three maps |
| `NamespaceStore.EncryptedNamespace.MoveDirectories` | crates/dlp-storage/src/store.rs:897-914 | removing and reinserting entry by entry, in any order, ends in the relocated map |
| `NamespaceIndex.LoadsWhatWasWritten` | crates/dlp-storage/src/store.rs:1079-1131 | loading what was printed, in any key order, gives exactly the directories and unmarked files with all times, if and only if every printed entry has a key and a name |
| `NamespaceIndex.LoadDirLine` | crates/dlp-storage/src/store.rs:1185-1203 | a printed directory line loads as that directory |
| `NamespaceIndex.LoadFileLine` | crates/dlp-storage/src/store.rs:1204-1226 | a printed file line loads as that file with its id and four times |
| `IndexedRuns.EveryIndexLoads` | crates/dlp-storage/src/store.rs:1133-1234 | after any run over accepted paths, the index text of the namespace loads back to its directories and unmarked files |
| `IndexedRuns.ParsedPathIsGood` | crates/dlp-storage/src/path.rs:87-98 | accepted paths give keys and names that fit one column of an index line |
| `IndexedRuns.RootDirectoryBreaksIndex` | crates/dlp-storage/src/path.rs:25-32 | creating the synthetic root as a directory succeeds and leaves an index that cannot be loaded |
| `IndexedRuns.PrintNamespace` | crates/dlp-storage/src/store.rs:1079-1103 | the printing loops produce a text that lists each key once, skips marked files and loads back to exactly what was printed, if and only if every printed entry has a key and a name |
| `IndexedRuns.LoadNamespace` | crates/dlp-storage/src/store.rs:1163-1234 | the loading loop stops at the first bad line and otherwise returns what the loading function says, for both versions |
| `Decimal.ParsePrint` | crates/dlp-storage/src/store.rs:29-41 | reading a printed number gives the number back exactly when it fits 64 bits |
| `Decimal.PaddedInjective` | crates/dlp-storage/src/store.rs:1294-1298 | zero-padded numbers in file and directory names differ when the numbers differ |
| `AuthorityLedger.StepKeepsConsistent` | crates/dlp-server/src/repository.rs:33-242 | every transaction keeps each device active serial equal to its one active credential row, revocations matching revoked rows, and serials owned by one device |
| `AuthorityLedger.StepIsMonotone` | crates/dlp-server/src/repository.rs:163-242 | revocations and credentials are never lost or altered, so a revoked serial stays revoked |
| `AuthorityLedger.ActivationFailsOnlyOnSerial` | migrations/202608070003_authenticated_routes.sql:14-15 | an activation that passes its checks fails only when the fresh serial is already used: the plain revocation insert and the one-active index cannot be what fails |
| `AuthorityLedger.StepKeepsAccounts` | crates/dlp-server/src/repository.rs:111-242 | tokens consumed never outnumber tokens provisioned, token by token, and every credential consumed one |
| `AuthorityLedger.RunsAreSafe` | crates/dlp-server/src/repository.rs:33-242 | the three properties over every interleaving of the three transactions |
| `AuthorityLedger.LedgerFromEmpty` | crates/dlp-server/src/repository.rs:33-242 | from empty tables each token is consumed at most as often as provisioned, credentials never outnumber tokens, and active serials are unrevoked and unique |
| `AuthorityLedger.AuthorityRepository.ProvisionDevice` | crates/dlp-server/src/repository.rs:33-109 | provisioning and recovery update the authority row as the transaction model says |
| `AuthorityLedger.AuthorityRepository.ConsumeOnce` | crates/dlp-server/src/repository.rs:111-161 | a token is consumed once, under the row checks of the transaction model |
| `AuthorityLedger.AuthorityRepository.ConsumeTokenAndActivate` | crates/dlp-server/src/repository.rs:163-242 | revoking the prior serial, inserting the new credential and switching the authority row happen together or not at all |
| `CivilDate.ConsecutiveDays` | crates/dlp-server/src/pki.rs:118-136 | every day count gives a valid date and the next count the next calendar day, across all leap rules |
| `CivilDate.CivilIsCalendar` | crates/dlp-server/src/pki.rs:118-136 | day n is the date reached by counting n days from 1970-01-01 |
| `CivilDate.DayCountInverts` | crates/dlp-server/src/pki.rs:118-136 | counting the days up to the date gives the day number back |
| `CivilDate.UtcDateIsCalendar` | crates/dlp-server/src/pki.rs:118-136 | with the clock and the year cast included, the date is the calendar date if and only if its year fits 32 bits |
| `CivilDate.ValidityPassesExactly` | crates/dlp-agent-core/src/client.rs:333-339 | an issued certificate is valid for 30 days plus the days between its two clock reads, in whichever order the clock gave them, and passes the agent length check if and only if the second read falls on no later day than the first |
| `Wildmatch.ScanIsGlob` | crates/dlp-windows-drive/src/wildmatch.rs:9-42 | the single-backtrack scan decides the recursive meaning of stars and question marks for every name without a star |
| `Wildmatch.ScanCorrectExactlyWithoutStar` | crates/dlp-windows-drive/src/wildmatch.rs:9-42 | the scan is right for all patterns on a name if and only if the name has no star |
| `Wildmatch.Matches` | crates/dlp-windows-drive/src/wildmatch.rs:9-42 | with any per-character case folding, the two loops terminate and compute the scan of the folded pattern and name, so they decide the pattern meaning for folded names without a star |
| `Wildmatch.MatchesFolded` | crates/dlp-windows-drive/src/wildmatch.rs:13-41 | the two loops compute the scan and terminate, so they decide the pattern meaning for every name without a star |
| `BoundedTail.ReadBoundedTail` | crates/dlp-log-debug-service/src/tail.rs:29-84 | the result is the longest run of at most the requested complete lines that ends at the last newline and lies in the last cap bytes; well-formed text is never reported invalid; zero limits are an error |
| `BoundedTail.CompleteLinesAreUtf8` | crates/dlp-log-debug-service/src/tail.rs:29-84 | complete lines of well-formed UTF-8 are well-formed, wherever the window starts |
| `BoundedTail.StartOfLast` | crates/dlp-log-debug-service/src/tail.rs:69-82 | the backward loop finds the earliest line start with at most the requested number of lines after it |
| `ConfigFormat.EnvelopeCodec` | crates/dlp-protocol/src/lib.rs:379-430 | the envelope decoder returns an envelope exactly when the input is the canonical encoding of that valid envelope |
| `ConfigFormat.ReencodingNeverFails` | crates/dlp-protocol/src/lib.rs:394-430 | whatever passes the decoder checks re-encodes to the input, so the final comparison never rejects |
| `ConfigFormat.BundleCodec` | crates/dlp-agent-core/src/config_cache.rs:302-361 | the bundle decoder accepts a byte string exactly when it is the serialization of the valid bundle it returns |
| `ConfigFormat.DeserializeSerializedPointers` | crates/dlp-agent-core/src/config_cache.rs:363-402 | pointer records survive writing and reading |
| `ConfigFormat.AcceptedPointersExactlyByLength` | crates/dlp-agent-core/src/config_cache.rs:379-402 | an accepted pointer record has length 26, 58, 66, 98 or 106, and is the serialization of what it decodes to if and only if the length is 26, 66 or 106 |
| `ConfigFormat.TruncatedVersionAccepted` | crates/dlp-agent-core/src/config_cache.rs:390-394 | a record cut off before its version is accepted with version zero |
| `ConfigFormat.HexParseEncode` | crates/dlp-agent-core/src/config_cache.rs:538-558 | a digest can be read back from its staging file name, so different digests have different files |
| `ConfigCache.ActivationPrefixIsSafe` | crates/dlp-agent-core/src/config_cache.rs:140-169 | after any number of file steps the pointer record is the old or the new one, switches exactly at the fourth step, and every bundle it names is in place with its digest and version, current above last-known-good |
| `ConfigCache.TornScratchIsHarmless` | crates/dlp-agent-core/src/config_cache.rs:292-299 | arbitrary contents of scratch files change nothing the cache reads |
| `ConfigCache.NewBundleIsNew` | crates/dlp-agent-core/src/config_cache.rs:140-152 | a bundle newer than a referenced one has a different digest, so its file is not the referenced file |
| `ConfigCache.CleaningKeeps` | crates/dlp-agent-core/src/config_cache.rs:196-215 | cleaning any unreferenced names keeps the pointers and their bundles |
| `ConfigRuns.ReferencedBundlesStay` | crates/dlp-agent-core/src/config_cache.rs:196-215 | at no step of an activation is a referenced bundle file overwritten or removed |
| `ConfigRuns.CrashingRunsAreSafe` | crates/dlp-agent-core/src/config_cache.rs:112-169 | over any run of submissions, each completed or cut short anywhere with any scratch contents, pointers and bundles stay sound and the current version never goes down |
| `ConfigRuns.CacheRefinesSet` | crates/dlp-agent-core/src/lib.rs:94-143 | after any submitted byte strings, with the cache reopened anywhere, the cache shows the same current and last-known-good bundle as the in-memory set |
| `ConfigRuns.SameDecision` | crates/dlp-agent-core/src/lib.rs:117-143 | the set accepts exactly the submissions the cache would install |
| `ConfigRuns.CurrentIsNewest` | crates/dlp-agent-core/src/config_cache.rs:140-163 | the current version is the greatest admissible version submitted |
| `ConfigRuns.OrderDoesNotMatter` | crates/dlp-agent-core/src/config_cache.rs:140-163 | two orders of the same submissions end with the same current version |
| `ConfigStore.DeserializeBundle` | crates/dlp-agent-core/src/config_cache.rs:318-361 | the position-advancing reader computes the bundle decoding function, errors included |
| `ConfigStore.DeserializePointerRecord` | crates/dlp-agent-core/src/config_cache.rs:379-402 | the reader computes the pointer decoding function, the lenient version included |
| `ConfigStore.ReadEnvelope` | crates/dlp-protocol/src/lib.rs:394-430 | the reader computes the strict envelope decoder, error by error |
| `ConfigStore.WriteCanonicalBytes` | crates/dlp-protocol/src/lib.rs:379-388 | appending field by field gives bytes that the decoder turns back into the envelope |
| `ConfigStore.ByteReader.Unsigned` | crates/dlp-agent-core/src/config_cache.rs:455-514 | big-endian integers are read with their mathematical value; a failed read consumes nothing |
| `ConfigStore.ByteReader.OptionalSlot` | crates/dlp-agent-core/src/config_cache.rs:521-527 | an optional digest with its version is read as the decoding function says |
| `ConfigStore.EncodeHex` | crates/dlp-agent-core/src/config_cache.rs:539-545 | the loop writes two hexadecimal characters per byte |
| `ConfigStore.ParseHex` | crates/dlp-agent-core/src/config_cache.rs:547-557 | the loop reads a digest from a 64-character name or rejects it |
| `ConfigStore.ConfigurationCache.StageVerifyActivate` | crates/dlp-agent-core/src/config_cache.rs:112-169 | on a device that fails after any number of file operations, and with any staging files that cannot be removed, the disk, answer and generation are those of the activation model cut at that point |
| `ConfigStore.ConfigurationCache.CleanStaging` | crates/dlp-agent-core/src/config_cache.rs:196-215 | the loop removes exactly the listed names that read as unreferenced digests and can be removed; each failed removal is ignored on its own |
| `ConfigStore.ConfigurationCache.CurrentBundle` | crates/dlp-agent-core/src/config_cache.rs:177-183 | loads the bundle the current pointer names, or the error of the reading model |
| `ConfigStore.ConfigurationCache.LkgBundle` | crates/dlp-agent-core/src/config_cache.rs:186-192 | loads the bundle the last-known-good pointer names, or the error of the reading model |
| `ConfigStore.ActiveConfigurationSet.Activate` | crates/dlp-agent-core/src/lib.rs:117-143 | replaces the pair of configurations exactly when the set specification accepts |

## Left out

- Windows FFI, named pipes, DPAPI, access-control lists, service control and the file-system host: foreign calls with straight-line checks.
- HTTP routes, TLS, LDAP and X.509 handling: plumbing over libraries; signature verdicts are inputs here.
- Policy evaluation, device-credential and pipe-frame codecs, fingerprints, session monitor and drive-letter choice: shorter repeats of proofs made here.
- Fault-injection seams and test hooks of the store, and the evidence copies and diagnostics written on integrity failures.
- The distinction between a full disk and other input/output failures: both are one error.
- The Unicode table behind case folding: `Wildmatch.Matches` takes the folding of a single character as a parameter.
- Listing.ReadDirectory: does not fix the order among entries whose names differ only in ASCII case, because map iteration order is not modelled.
- Namespace indexes on the store's disk: sealing one adds its record to the cipher log in `Drive` and `StoreRuns`, while the stored index itself is a field of the namespace.
- One clock reading per namespace operation: the code reads the clock once per moved entry, so change times within one rename may differ by more than the model shows.
- Filesystem path formatting of the store: files on disk are named by datatype values; `Decimal.PaddedInjective` and `ConfigFormat.HexParseEncode` show that the number and digest formats keep names apart.
- Contents above 4 MiB times 2^32 - 1, which the 32-bit chunk count cannot describe.
- File and handle counters of other store instances in the same process: one store draws from the counters here.
- Locking: operations on one store, and transactions on one row, are taken as serialized, as the mutex and row locks make them.
- The difference between the reader that consumes a slice and the one that advances a position: one reader class per format stands for both.
- UTF-8 encoding and decoding of the index text: the text is a sequence of characters here.
