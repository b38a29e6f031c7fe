# snapshot-store: a Dafny model

The system is a content-addressed store for guest pages and snapshots. This project models the parts of it that are hard
to get right and states what they keep. `dafny verify dfyconfig.toml` checks everything.

| files | what they model |
|---|---|
| `base`, `sorting` | bytes, little-endian integers, the stable sort |
| `manifest`, `manifest_ops`, `input_log` | the manifest and input-log containers, the manifest builders, flattening of delta chains |
| `scatter` | client-side placement of page-channel results |
| `formats` | the four containers byte by byte, and what each decoding error says about the bytes |
| `pack_format`, `pack_files` | a pack file byte by byte: header, records, torn tail, footer, the writer and the scanners |
| `index`, `sidecar` | the 256-shard hash index and the sidecar file of a pack |
| `store_model`, `store_runs` | the page store as a state machine: writer, collector, kill and restart as single steps |
| `pack_layers` | the byte level and the record level agree on what a kill leaves of a pack |
| `recovery`, `page_store` | opening a store, and the store object with ingest, rotation, sync and the collector's surfaces |
| `readers`, `rely` | batched reads racing with everything else, and why every run gives readers what they rely on |
| `concurrent_ingest` | any number of ingesting threads |
| `meta_tables`, `meta_tree`, `meta_runs`, `meta_keys`, `writer_actor` | the metadata tables, the single writer with its savepoint batches, compare-and-set, kills and restarts |
| `meta_queries`, `meta_paging`, `reconcile` | path, filter and paging queries, startup reconciliation |

BLAKE3, CRC32 and zstd are function parameters, so each statement holds for every such function; nothing assumes that
hashes never collide. The page store has two layers. At byte level a pack is a `seq` of bytes and a kill cuts it anywhere.
At record level a pack is the sequence of its page hashes, a location is a pack and a slot (byte offset 20 + 4133 * slot),
and a kill keeps of each unsealed pack some prefix between what was flushed and what was appended. A sidecar is there the
first slot it lists for each hash, which is all that loading it can see; a sidecar that is torn or fails its checksum does
not load and counts as absent, and any sidecar may become so while the store is down. `pack_layers` ties the two together.

The collector appears only through its documented contract: it repoints an entry only to a record of the same hash in a
pack it has published, and unlinks a pack only after every entry has left it. SQL tables are maps, a recursive query is the
least closure it computes, and BEGIN, SAVEPOINT and COMMIT succeed.

## What the model shows about the code

- A pack is taken for sealed by its last 44 bytes and a count of frames. An unsealed file passes exactly when its tail has
  the shape of a footer with the right count, and a torn page can then be listed as a record
  (`PackFormat.UnsealedTakenForSealed`, `PackFormat.RecoveredTorn`, `PackFormat.TornPageListed`).
- A pack with a torn footer lists exactly its records if and only if it passes for sealed all the same or the torn footer
  does not read as a record (`PackFormat.RecoveredTornFooter`); for some hash function it does read as one
  (`PackFormat.TornFooterListed`).
- `sync` takes the dirty set before the first fdatasync. When one fails, the packs not yet reached are never synced by a
  later call (`StoreRuns.FailedSyncForgets`; a run from an empty directory: `StoreRuns.FailedSyncLosesAPack`).
  `StoreRuns.SyncMakesDurable` gives the exact condition.
- A pack resumed after a restart gets the default cap of 1 GiB, whatever cap is configured (`PageStores.PageStore.Open`).
- A sidecar's record count is truncated to 32 bits, so writing and loading restores a pack's entries exactly when there are
  fewer than 2^32 (`Sidecar.SidecarRestores`).
- The manifest builders accept a delta whose parent is 32 zero bytes and a zstd blob that does not decompress to its stated
  length; such a manifest encodes but does not decode (`Manifests.BuilderRoundTrip`; one of each kind:
  `ManifestOps.ZeroParentDelta`, `ManifestOps.WrongLengthDelta`).
- A page that is removed and ingested again while a reader retries may be found only in the write buffer. A handle can read
  it at once if and only if the append filled the buffer to 4 MiB (`Rely.RewrittenPageIsReadable`), and the retry reports a
  truncated record exactly if the page is still in the buffer then (`Readers.PageReader.ReadSealedWithRetry`). A run from
  an empty directory leads there, and the whole batch fails although the page is stored (`Rely.RetryCanBeCutOff`).
- Any granted reap of an existing row deletes every input log no row names, including logs of other experiments uploaded
  ahead of their node (`MetaTree.ReapIsExact`); the node is then refused (`MetaKeys.AheadLogIsLost`).
- After a delete, key-value generations start over, so a compare-and-set with an old generation can succeed again: it does
  if and only if the key is back at that generation, which takes a granted delete (`MetaKeys.CasAdmitsOne`), and can happen
  for every generation (`MetaKeys.CasAfterDelete`).
- A create can be repeated as long as no reap has deleted its row and its parent is not pruned; after a prune of the parent
  the repeat is refused although the row is there (`MetaRuns.CreateIsRepeatable`, `MetaRuns.PruneRefusesRepeat`).
- Node ids are stored as signed integers, so a query ordered by id lists ids of 2^63 and more first. It returns the first
  rows by ascending id if and only if no two matching ids lie on both sides of 2^63 (`MetaQueries.IdOrderIsExact`; a table
  of two rows: `MetaQueries.ChildComesFirst`).

## Model

| member | source | states |
|---|---|---|
| StoreRuns.StepKeeps | crates/snapstore-pagestore/src/ingest.rs:710-970 | every step of the writer, the collector, a kill or a restart keeps the whole invariant: sound sidecars, sound index, pack roles, fresh ids, the dirty set |
| StoreRuns.RunKeeps | crates/snapstore-pagestore/src/ingest.rs:136-970 | so does every run, in any order of steps |
| StoreRuns.SidecarsCoverTheIndex | crates/snapstore-pagestore/src/ingest.rs:785-812 | from an empty directory on: a sidecar lists only real records of a sealed pack on disk; every index entry names a record of its hash, and unless that is in the active pack, the pack has a sidecar and the sidecar lists it, through shadowing, orphan adoption, corrupt sidecars and rebuilds |
| StoreRuns.CrashRecovery | crates/snapstore-pagestore/src/ingest.rs:136-278 | kill anywhere, repair in any number of interrupted attempts, open: the index is sound, names exactly the pages the killed disk still held, and so every page indexed at the kill whose record was in its file |
| StoreRuns.CrashRecoveryWithoutSidecars | crates/snapstore-pagestore/src/ingest.rs:217-237 | the same with any sidecars found torn or corrupt in between: no page indexed at the kill whose record was in its file is lost, and every entry names a record of its hash |
| StoreRuns.KilledKeepsIndexed | crates/snapstore-pagestore/src/ingest.rs:785-812 | an indexed page whose record is in a sealed pack or before the cut can still be found from disk alone |
| StoreRuns.RestartKeepsRecoverable | crates/snapstore-pagestore/src/ingest.rs:139-237 | no repair step adds or loses a page |
| StoreRuns.SyncFindsItsFiles | crates/snapstore-pagestore/src/ingest.rs:716-726 | in every state a run from an empty directory reaches, the dirty set and the active pack are on disk, even after freshly rotated packs were deleted |
| StoreRuns.SyncMakesDurable | crates/snapstore-pagestore/src/ingest.rs:710-737 | after a sync every ingest pack is flushed, and none is unsynced if and only if no earlier sync lost one that is still kept |
| StoreRuns.SyncCoversLifetime | crates/snapstore-pagestore/src/ingest.rs:710-737 | in a lifetime without a failed sync, a sync covers every pack written by ingest, across any rotations and deletions |
| StoreRuns.FailedSyncForgets | crates/snapstore-pagestore/src/ingest.rs:716-726 | after a failed sync the next one still misses exactly the dirty packs that were neither reached nor active |
| StoreRuns.FailedSyncLosesAPack | crates/snapstore-pagestore/src/ingest.rs:716-726 | a run from an empty directory that ends in a successful sync and leaves the pack of an indexed page unsynced |
| StoreRuns.IdsNeverRepeat | crates/snapstore-pagestore/src/ingest.rs:797-801 | two ids handed out in one lifetime, by rotation or to the collector, differ, and neither names an existing file |
| Recovery.Recover | crates/snapstore-pagestore/src/ingest.rs:136-278 | from any disk a kill can leave, the repaired disk is ready to open, has the same records, and the index built holds exactly the recoverable pages; the highest unsealed pack, if any, is the active one, otherwise a new one just above all others; where several packs have a page, its entry is in the first of the older unsealed packs by id, then of the sealed ones by id, then in the active one, at the slot its sidecar lists or else its first record |
| Recovery.SealOldPack | crates/snapstore-pagestore/src/ingest.rs:187-207 | sealing an older unsealed pack and listing its scan adds exactly that pack's pages, each at its first slot, and moves no entry that was there |
| Recovery.LoadPack | crates/snapstore-pagestore/src/ingest.rs:217-237 | loading a sealed pack, or rebuilding a sidecar that is missing or does not load from a scan, adds exactly that pack's pages at the slots listed and moves no entry that was there |
| Recovery.ReopenLast | crates/snapstore-pagestore/src/ingest.rs:240-246 | the highest unsealed pack resumes and its records join the index last, so none replaces an entry of another pack |
| Recovery.StartFresh | crates/snapstore-pagestore/src/ingest.rs:246-256 | with no unsealed pack, a new one is created above every id on disk |
| PageStores.PageStore.Open | crates/snapstore-pagestore/src/ingest.rs:136-278 | the opened store satisfies the invariant and indexes exactly the recoverable pages, each where the order of loading puts it; the cap of a resumed pack is the default one |
| PageStores.PageStore.RotateLocked | crates/snapstore-pagestore/src/ingest.rs:785-812 | the old pack is sealed and whole, its sidecar lists exactly the index entries that point into it, the next id names a new empty pack, the old one is dirty, nothing else changes, and the invariant holds |
| PageStores.RotationIsFourSteps | crates/snapstore-pagestore/src/ingest.rs:785-812 | a rotation is the run of the four steps footer, sidecar, file, header of the store model |
| PageStores.PageStore.RotateActive | crates/snapstore-pagestore/src/ingest.rs:762-777 | afterwards the active pack is empty and every other pack, the collector's included, has a lower id; it rotates exactly if that does not hold already |
| PageStores.PageStore.Ingest | crates/snapstore-pagestore/src/ingest.rs:284-385 | one true outcome per page in order; exactly the distinct new hashes are appended, once each, and reported newly written at their first position; records and index grow alike; it fails only with a cap too small for one record |
| PageStores.PageStore.WriteMiss | crates/snapstore-pagestore/src/ingest.rs:325-366 | re-check of one miss; a page that is there changes nothing, any other is appended after a rotation exactly if the pack is full, with the exact condition for running out of room |
| PageStores.PageStore.Append | crates/snapstore-pagestore/src/pack.rs:213-244 | one record more in the active pack and its index entry, flushed when 4 MiB are buffered, or full with nothing changed |
| PageStores.AppendIsSteps | crates/snapstore-pagestore/src/pack.rs:213-244 | an append is one step of the store model, or two if it fills the write buffer |
| PageStores.GcAppendIsSteps | crates/snapstore-pagestore/src/ingest.rs:917-925 | so is one to a collector pack |
| PageStores.FillRepeats | crates/snapstore-pagestore/src/ingest.rs:368-384 | positions still open are repeats, and their lookup always succeeds |
| PageStores.PageStore.Sync | crates/snapstore-pagestore/src/ingest.rs:710-737 | succeeds exactly when every dirty pack and the active one can be synced; a failure leaves the state of a partly done sync |
| PageStores.PageStore.CreateGcPack | crates/snapstore-pagestore/src/ingest.rs:841-857 | a fresh empty pack whose id is above every pack's; nothing else changes |
| PageStores.PageStore.GcAppend | crates/snapstore-pagestore/src/ingest.rs:917-925 | the record is then the last of the collector's pack, at the slot returned, and flushed with the rest when 4 MiB are buffered; or the pack is full and nothing changes |
| PageStores.PageStore.SealAndPublish | crates/snapstore-pagestore/src/ingest.rs:947-969 | the sealed pack's sidecar lists every one of its records at its first slot although the index names none of them; nothing else changes |
| PageStores.PageStore.RepointIfInPack | crates/snapstore-pagestore/src/ingest.rs:693-700 | an entry moves exactly if it is still in the expected pack; the invariant holds |
| PageStores.PageStore.RemoveIfInPack | crates/snapstore-pagestore/src/ingest.rs:705-707 | an entry goes exactly if it is still in the expected pack; the invariant holds |
| PageStores.PageStore.DeletePack | crates/snapstore-pagestore/src/ingest.rs:869-897 | the pack leaves the dirty set, its sidecar and then its file go, nothing else changes, and the invariant holds at each step |
| Readers.PageReader.GetBatch | crates/snapstore-pagestore/src/ingest.rs:404-582 | with other threads and the collector acting between any two steps: every position holds bytes hashing to its hash or nothing; a hash that stays indexed gets its page; the call fails with "not found" only if two packs holding a requested page were unlinked meanwhile, with "truncated" only if one was and the page, which did not stay indexed, is in the write buffer at the end, and with nothing else |
| Readers.PageReader.ReadSealedWithRetry | crates/snapstore-pagestore/src/ingest.rs:586-635 | a page that stays indexed is returned unless two packs holding it were unlinked; an error implies the first pack was unlinked and the index then gave another location: "not found" implies that its pack is gone too, and otherwise the read fails, as truncated, exactly if the record is in the write buffer when the answer is given; the "index still names the missing pack" case does not occur |
| Readers.PageReader.ReadAt | crates/snapstore-pagestore/src/pack.rs:405-442 | a read succeeds exactly for a flushed record of the expected hash, and returns bytes with that hash |
| Readers.PageReader.GetOrOpen | crates/snapstore-pagestore/src/read_cache.rs:113-134 | a handle is had exactly if it was cached at the call or the file is linked at the moment of the open |
| Readers.PageReader.ServeRuns | crates/snapstore-pagestore/src/ingest.rs:460-503 | one handle per run of lookups in a pack serves them all, falling back page by page |
| Readers.PageReader.ServeRest | crates/snapstore-pagestore/src/ingest.rs:510-579 | lookups of the active pack are read under the lock after a flush, and those it has left behind since are read as sealed |
| Rely.RunIsInterference | crates/snapstore-pagestore/src/ingest.rs:785-970 | every run of the store short of a kill, each appended page hashing to its hash, gives readers what they rely on: sound payloads, files that only grow or seal, an unlinked pack that never returns, an entry that stays moving only into a sealed pack |
| Rely.LockedRunSparesActive | crates/snapstore-pagestore/src/ingest.rs:510-560 | no run of collector steps while the active lock is held changes the active pack |
| Rely.RewrittenPageIsReadable | crates/snapstore-pagestore/src/pack.rs:213-244 | a page written again is in the active pack, and readable through a handle if and only if the append filled the buffer to 4 MiB and flushed it |
| Rely.RetryCanBeCutOff | crates/snapstore-pagestore/src/ingest.rs:586-635 | in a store reached from an empty directory, a removal, an unlink and a rewrite that a reader must expect leave the page it looked up in the write buffer |
| ConcurrentIngest.InterleavedIngest | crates/snapstore-pagestore/src/ingest.rs:284-385 | for every interleaving of any number of batches with each other and with the collector's fences: records and index grow alike, each new hash is written once and reported newly written by one thread at one position, every location handed out holds its page, and the closing lookup never fails |
| ConcurrentIngest.StepKeeps | crates/snapstore-pagestore/src/ingest.rs:306-366 | each probe, lock, append, rotation, fence and fill step keeps the ingest invariant |
| ConcurrentIngest.StepsRunOut | crates/snapstore-pagestore/src/ingest.rs:306-384 | each step of a thread leaves it less to do and the others as they were |
| ConcurrentIngest.NoDeadlock | crates/snapstore-pagestore/src/ingest.rs:325-366 | while a batch is not answered, its thread can step or the one holding the lock can |
| ConcurrentIngest.CanFinish | crates/snapstore-pagestore/src/ingest.rs:284-385 | from every state any interleaving reaches, the threads can go on until every batch has an outcome at every position |
| ConcurrentIngest.StoreDoesThis | crates/snapstore-pagestore/src/ingest.rs:785-812 | the append and rotation used there are those of the store model |
| PackFormat.KilledWriteKeepsComplete | crates/snapstore-pagestore/src/pack.rs:247-253 | a write cut anywhere leaves the complete records before the cut and a torn rest |
| PackFormat.KilledFooterKeepsComplete | crates/snapstore-pagestore/src/pack.rs:261-279 | the verifying scan drops a footer cut anywhere if and only if its bytes do not read as a record |
| PackFormat.RecoveredTornFooter | crates/snapstore-pagestore/src/ingest.rs:1010-1078 | recovery of a pack with a torn footer lists exactly its records if and only if it passes for sealed or the torn footer does not read as a record |
| PackFormat.TornFooterListed | crates/snapstore-pagestore/src/pack.rs:447-537 | a hash function and a file for which that fails |
| PackFormat.WalkTorn | crates/snapstore-pagestore/src/pack.rs:447-537 | the scanners stop exactly at the end of the last complete record |
| PackFormat.CorruptRecordStops | crates/snapstore-pagestore/src/pack.rs:447-537 | verification stops exactly before the first record whose page does not have its hash, and counting goes past it |
| PackFormat.ScannersPart | crates/snapstore-pagestore/src/pack.rs:447-637 | which whole frames each of the three scanners passes |
| PackFormat.SealedIsRecognised | crates/snapstore-pagestore/src/pack.rs:332-373 | a pack the writer sealed is recognised as sealed |
| PackFormat.UnsealedTakenForSealed | crates/snapstore-pagestore/src/ingest.rs:1010-1025 | an unsealed pack is taken for sealed if and only if its last bytes have the shape of a footer with the right count |
| PackFormat.RecoveredSealed | crates/snapstore-pagestore/src/pack.rs:563-598 | recovery of a sealed pack lists exactly its records |
| PackFormat.RecoveredTorn | crates/snapstore-pagestore/src/pack.rs:447-537 | recovery of a torn pack lists exactly its complete records, if and only if the tail is not footer-shaped with a whole record header before it |
| PackFormat.TornPageListed | crates/snapstore-pagestore/src/pack.rs:342-366 | a file for which that fails |
| PackFiles.PackWriter.Append | crates/snapstore-pagestore/src/pack.rs:213-244 | file plus buffer spell the header and all records, offset, count and hasher input agree; sealed and full packs are refused unchanged |
| PackFiles.PackWriter.FlushBuf | crates/snapstore-pagestore/src/pack.rs:247-253 | the file then holds every record appended |
| PackFiles.PackWriter.Seal | crates/snapstore-pagestore/src/pack.rs:261-279 | the file is header, records and the footer over them; sealing twice is refused |
| PackFiles.PackWriter.Resume | crates/snapstore-pagestore/src/pack.rs:108-183 | the resumed writer has the state an uninterrupted one would have, with the default cap |
| PackFiles.OpenSealed | crates/snapstore-pagestore/src/pack.rs:332-373 | accepts exactly the files that read as sealed, with the reason for refusing others |
| PackFiles.OpenUnsealed | crates/snapstore-pagestore/src/pack.rs:447-537 | truncates to the end of the records the scan accepts |
| PackFiles.Scan | crates/snapstore-pagestore/src/pack.rs:563-598 | lists offset and hash of every frame in file order |
| PackFiles.ScanFrames | crates/snapstore-pagestore/src/pack.rs:609-637 | end and count of the frames, for each of the three scanners |
| PackFiles.ReadWhatWasWritten | crates/snapstore-pagestore/src/pack.rs:405-442 | reading a record's offset gives its page if the expected hash is the stored one and the page still has it, and a mismatch otherwise |
| PackFiles.Reopen | crates/snapstore-pagestore/src/pack.rs:108-183 | reopening a clean pack resumes at its end with its count and hasher input |
| PackFiles.ResumeAndFinish | crates/snapstore-pagestore/src/pack.rs:108-279 | a pack killed at any byte of any record, opened, resumed, filled and sealed is byte for byte the pack of an uninterrupted writer |
| PackLayers.CutIsSurvivor | crates/snapstore-pagestore/src/ingest.rs:1010-1078 | whatever a kill leaves of an unsealed file is a cut the record level allows, with exactly its surviving records complete; a restart lists exactly those if and only if the torn end does not pass for a footer |
| PackLayers.SurvivorIsCut | crates/snapstore-pagestore/src/pack.rs:247-253 | and every cut the record level allows is one a kill can leave |
| PackLayers.SealedSurvives | crates/snapstore-pagestore/src/pack.rs:563-598 | a sealed pack lists all its records after any kill |
| PackLayers.SidecarGivesAllOf | crates/snapstore-pagestore/src/index.rs:132-264 | a sidecar written from a scan and loaded gives every hash of the pack its first slot and nothing else |
| PackFiles.SealExisting | crates/snapstore-pagestore/src/ingest.rs:1033-1078 | truncates and seals with the footer the writer itself would have written |
| PackFiles.KilledPackIsClean | crates/snapstore-pagestore/src/pack.rs:447-537 | a killed pack cut to its complete records is the pack of exactly those records |
| Index.ShardedIndex.Lookup | crates/snapstore-pagestore/src/index.rs:46-50 | the shards answer like one map |
| Index.ShardedIndex.Insert | crates/snapstore-pagestore/src/index.rs:53-57 | first writer wins |
| Index.ShardedIndex.RepointIfInPack | crates/snapstore-pagestore/src/index.rs:64-79 | changes an entry exactly if it is in the expected pack |
| Index.ShardedIndex.RemoveIfInPack | crates/snapstore-pagestore/src/index.rs:83-93 | removes an entry exactly if it is in the expected pack |
| Index.ShardedIndex.InsertBatch | crates/snapstore-pagestore/src/index.rs:112-128 | grouping by shard equals inserting in order |
| Index.ShardedIndex.EntriesForPack | crates/snapstore-pagestore/src/index.rs:98-109 | every entry of the pack once and nothing else |
| Index.InsertAllGet | crates/snapstore-pagestore/src/index.rs:112-128 | after a batch a lookup gives the old entry, else the first in the batch |
| Sidecar.WriteEntries | crates/snapstore-pagestore/src/index.rs:221-264 | the bytes are the sealed table of the entries in hash order, and loading them in that order makes the same index as the order given, repeated hashes included |
| Sidecar.WriteForPack | crates/snapstore-pagestore/src/index.rs:183-186 | the sidecar of a pack's index entries |
| Sidecar.Load | crates/snapstore-pagestore/src/index.rs:132-180 | inserts exactly the parsed entries, or fails and changes nothing |
| Sidecar.WrittenParses | crates/snapstore-pagestore/src/index.rs:132-180 | what was written parses to the entries, up to the 32-bit count |
| Sidecar.SidecarRestores | crates/snapstore-pagestore/src/index.rs:183-264 | writing and loading into an empty index restores the entries if and only if there are fewer than 2^32 |
| Sidecar.RankIsLexicographic | crates/snapstore-pagestore/src/index.rs:221-232 | the sort order is the byte order of hashes |
| Formats.SidecarLayout | crates/snapstore-pagestore/src/index.rs:221-264 | count, then hash, pack and offset of each entry at their offsets, then the checksum of all before it |
| Formats.SidecarVerdict | crates/snapstore-pagestore/src/index.rs:132-180 | a sidecar loads exactly if its checksum is right and the entries it counts are there, and with which error otherwise |
| Formats.PackLayout | crates/snapstore-pagestore/src/pack.rs:9-20 | header, records of 4133 bytes and a footer that counts and hashes them, field by field |
| Formats.BodyLayout | crates/snapstore-manifest/src/lib.rs:232-286 | every header field, entry and the blob of a manifest at its offset |
| Formats.ManifestLayout | crates/snapstore-manifest/src/lib.rs:232-286 | a manifest ends in the hash of everything before it |
| Formats.ManifestErrorsHold | crates/snapstore-manifest/src/lib.rs:291-448 | whatever the decoder finds wrong with a byte string is wrong with it |
| Formats.FirstErrorIsReported | crates/snapstore-manifest/src/lib.rs:291-448 | it reports the first check that fails, the footer before all others |
| Formats.InputLogLayout | crates/snapstore-manifest/src/lib.rs:590-661 | every field of an input log at its offset, and the hash of everything before it at the end |
| Formats.InputLogErrorsHold | crates/snapstore-manifest/src/lib.rs:590-661 | whatever the input-log decoder finds wrong is wrong |
| Manifests.Encode | crates/snapstore-manifest/src/lib.rs:232-286 | the header, table, blob and footer of the manifest |
| Manifests.DecodeInvertsEncode | crates/snapstore-manifest/src/lib.rs:232-448 | for every byte string and manifest: it decodes to the manifest if and only if the manifest is well formed and encodes to it |
| Manifests.BuilderRoundTrip | crates/snapstore-manifest/src/lib.rs:144-209 | a built manifest survives encode and decode if and only if its parent is not all zero and its zstd blob decompresses to its stated length |
| Manifests.ZeroParentIsRefused | crates/snapstore-manifest/src/lib.rs:178-209 | every built delta with an all-zero parent encodes to bytes the decoder refuses |
| ManifestOps.ZeroParentDelta | crates/snapstore-manifest/src/lib.rs:178-209 | builder, encoder and decoder at work on one |
| Manifests.WrongLengthIsRefused | crates/snapstore-manifest/src/lib.rs:144-209 | so does every built manifest whose zstd blob has another length than stated |
| ManifestOps.WrongLengthDelta | crates/snapstore-manifest/src/lib.rs:178-209 | builder, encoder and decoder at work on one |
| Manifests.AcceptedIsEncoding | crates/snapstore-manifest/src/lib.rs:291-448 | every accepted byte string re-encodes to itself |
| ManifestOps.Decode | crates/snapstore-manifest/src/lib.rs:291-448 | the decoder's loops compute the specified result and error for every byte string |
| ManifestOps.NewFull | crates/snapstore-manifest/src/lib.rs:144-174 | accepts exactly a page set covering the RAM once, sorts it, and names the fault otherwise |
| ManifestOps.NewDelta | crates/snapstore-manifest/src/lib.rs:178-209 | accepts exactly distinct in-range pages, sorts them, and names the fault otherwise |
| ManifestOps.Flatten | crates/snapstore-manifest/src/lib.rs:470-507 | a chain flattens exactly if it is not empty, its root is full and all RAM sizes agree, with the error for each other case; there is one entry per page in page order, from the first manifest that mentions the page |
| ManifestOps.FlattenDelta | crates/snapstore-manifest/src/lib.rs:514-545 | a chain flattens exactly if it is not empty, its root is a delta and all RAM sizes agree, with the error for each other case; the entries are, in page order, those of the first manifest to mention their page, and no others |
| ManifestOps.FlattenedIsTotal | crates/snapstore-manifest/src/lib.rs:470-507 | a chain of well-formed manifests of equal RAM ending in a full one always flattens, and covers every page once |
| ManifestOps.FlattenComposes | crates/snapstore-manifest/src/lib.rs:470-545 | flattening deltas followed by a chain equals overlaying the flattened deltas on the flattened chain |
| InputLogs.DecodeInvertsEncode | crates/snapstore-manifest/src/lib.rs:590-661 | for every byte string and log: it decodes to the log if and only if the log fits and encodes to it |
| Scatter.AttachPayloads | crates/snapstore-client/src/client.rs:1005-1080 | results are accepted exactly if there is one per position, each a page hashing to the hash resolved for it, whatever order they came in, and each lies then at its position; otherwise the error is true of the first faulty result; a missing slot is never reported |
| Scatter.EverySlotNamed | crates/snapstore-client/src/client.rs:1005-1080 | as many distinct in-range slots as positions leave none out |
| MetaTree.CommandKeeps | crates/snapstore-meta/src/actor.rs:431-999 | every command keeps the forest, the presence of referenced logs, stamps below the counter and distinct creation stamps |
| MetaKeys.CreateIsExact | crates/snapstore-meta/src/actor.rs:431-537 | a create is granted exactly if a root is what has id 0, the parent exists and is not pruned, and the log is stored or comes genuine, with the error for each refusal; a new row holds what was sent, an existing one is given back if parent, snapshot and log agree |
| MetaRuns.CreateIsRepeatable | crates/snapstore-meta/src/actor.rs:431-537 | after any commands, unless a reap deleted its row, repeating a granted create returns the row first made and changes nothing if and only if its parent is not pruned by then |
| MetaRuns.PruneRefusesRepeat | crates/snapstore-meta/src/actor.rs:449-459 | the refusal occurs after every granted create and a prune of its parent |
| MetaTree.UpdatesAddUp | crates/snapstore-meta/src/actor.rs:570-628 | within one command the last value set wins field by field, visit deltas add up, any touch counts, and what is not named is untouched |
| MetaTree.UpdateIsExact | crates/snapstore-meta/src/actor.rs:539-631 | an update is granted exactly if every id exists, and the refusal lists the others in order; every row named sums its updates, every other stays |
| MetaTree.SubtreeIsLeastClosure | crates/snapstore-meta/src/actor.rs:876-886 | the subtree is the least set with its root closed under children |
| MetaTree.PruneIsExact | crates/snapstore-meta/src/actor.rs:849-897 | a prune is granted exactly for an existing, allowed root, with the error otherwise; it marks the closure and nothing else, returns its size and leaves one tombstone dated by the first prune |
| MetaTree.ReapIsExact | crates/snapstore-meta/src/actor.rs:923-999 | a reap of a row that is there deletes the closure and its tombstone if and only if all of it is pruned, leaving exactly the logs that rows still name; otherwise nothing changes |
| MetaTree.CommandKeepsCondemned | crates/snapstore-meta/src/actor.rs:449-459 | no command adds a row under a pruned subtree, given no row of it is brought back |
| MetaRuns.ReapDeletesOnlyPruned | crates/snapstore-meta/src/actor.rs:849-999 | after a prune and any commands that revive none of its rows nor create its root again, a reap is granted and deletes only rows that were in the subtree when it was pruned |
| WriterActors.BatchesMatchSingles | crates/snapstore-meta/src/actor.rs:282-350 | two writers in the same state, one given a stream in batches cut anywhere and one a command at a time, end with the same tables, counters and replies, savepoints and rollbacks included |
| MetaRuns.HistoryKeeps | crates/snapstore-meta/src/schema.rs:162-192 | over every history of commits, kills and restarts the tables stay sound, stamps stay below the counter and creation stamps stay distinct |
| MetaKeys.CasAdmitsOne | crates/snapstore-meta/src/actor.rs:683-781 | after a granted put expecting a generation and any commands, a second put expecting it is granted if and only if its size is legal and the key is back at that generation, which takes a granted delete of the key |
| MetaKeys.CasAfterDelete | crates/snapstore-meta/src/actor.rs:783-826 | for every generation such a run exists |
| WriterActors.WriterActor.ExecuteBatch | crates/snapstore-meta/src/actor.rs:282-350 | the savepoint loop over in-place tables computes the sequential tables and replies, and commits the counter |
| WriterActors.WriterActor.ExecuteOne | crates/snapstore-meta/src/actor.rs:311-339 | a failing command leaves no effect, not even an inline log it had inserted, beyond the counter value it used |
| WriterActors.WriterActor.Create | crates/snapstore-meta/src/actor.rs:431-537 | result and error of a create in the source's order of checks, including the idempotent repeat |
| WriterActors.WriterActor.Update | crates/snapstore-meta/src/actor.rs:539-631 | all updates applied in order, or the full list of missing ids |
| WriterActors.WriterActor.Prune | crates/snapstore-meta/src/actor.rs:849-897 | the level-by-level query marks the subtree and leaves one tombstone |
| WriterActors.WriterActor.Reap | crates/snapstore-meta/src/actor.rs:923-999 | deletes the subtree, unreferenced logs and the tombstone, or refuses |
| MetaKeys.LogPutIsExact | crates/snapstore-meta/src/actor.rs:641-681 | a log is stored exactly if its size is in bounds and its body hashes to its id; the reply says whether it was new, nothing stored is replaced, and the id then names a container whose body hashes to it |
| MetaKeys.LogsLeaveByReap | crates/snapstore-meta/src/actor.rs:641-999 | over every run a stored log keeps its bytes unless a reap leaves no row that names it |
| MetaKeys.AheadLogIsLost | crates/snapstore-meta/src/actor.rs:923-999 | from empty tables: a log uploaded ahead of its node is lost to a reap in another experiment, and the node, which would have been created, is refused |
| MetaKeys.ReplayKeepsStored | crates/snapstore-meta/src/actor.rs:641-826 | over every run each stored log hashes to its id, and pairs are of legal size with generations from 1 |
| MetaKeys.PutIsExact | crates/snapstore-meta/src/actor.rs:683-781 | granted exactly for legal sizes and the generation expected, 0 for a missing key; the generation goes up by one, the reply says so, nothing else changes; a refusal says the current one |
| MetaKeys.PinsAreExact | crates/snapstore-meta/src/actor.rs:828-847 | a pin keeps its first note and stamp, an unpin says whether there was one |
| MetaKeys.DeleteIsExact | crates/snapstore-meta/src/actor.rs:783-826 | refused exactly for an illegal key or a present one of another generation; the reply says whether the key was there, and every other key stays |
| MetaKeys.KeysAreAsReplied | crates/snapstore-meta/src/actor.rs:683-826 | over every run the table holds what the replies tell: the value of the last granted put since the last granted delete, at a generation counting those puts |
| WriterActors.CollectSubtree | crates/snapstore-meta/src/actor.rs:943-958 | the recursive query ends and yields the subtree |
| WriterActors.RederiveCounter | crates/snapstore-meta/src/schema.rs:162-192 | one more than the persisted counter and every node stamp, and no more |
| WriterActors.WriterActor.Restart | crates/snapstore-meta/src/schema.rs:162-192 | after a kill the counter is above every stamp of the committed tables |
| MetaQueries.PathIsRootToNode | crates/snapstore-meta/src/pool.rs:161-204 | rows selected as ancestors and sorted by depth are exactly the chain from the root to the node |
| MetaQueries.GetPath | crates/snapstore-meta/src/pool.rs:161-204 | that chain in order, depth + 1 rows, each with its log where asked for |
| MetaQueries.QueryNodes | crates/snapstore-meta/src/pool.rs:206-256 | of the rows that meet every condition of the filter, the first ones in the order asked for, at most the effective limit, each once |
| MetaQueries.AnswerIsExact | crates/snapstore-meta/src/pool.rs:206-256 | condition by condition: what rows come out, in what order, how many at most, and when one that passes is left out |
| MetaQueries.IdOrderIsExact | crates/snapstore-meta/src/pool.rs:206-256 | a query by id returns the first matching rows by ascending id if and only if no two matching ids lie on both sides of 2^63 or nothing was asked for |
| MetaQueries.HighIdsComeFirst | crates/snapstore-meta/src/pool.rs:49-51 | no id below 2^63 comes before one of 2^63 or more |
| MetaQueries.ChildComesFirst | crates/snapstore-meta/src/pool.rs:206-256 | a table of two rows whose child comes out before its root |
| MetaPaging.SessionReadsAll | crates/snapstore-meta/src/pool.rs:206-256 | paging by creation stamp with rows created in between reads every row there at the start |
| MetaPaging.SessionIsAscending | crates/snapstore-meta/src/pool.rs:206-256 | and returns rows by strictly ascending stamp across pages, so none twice |
| MetaPaging.ReplayOnlyAdds | crates/snapstore-meta/src/actor.rs:308-339 | commands other than reaps remove no row, change no creation stamp and stamp new rows above all old ones |
| MetaPaging.HistoryServesSessions | crates/snapstore-meta/src/pool.rs:206-256 | a client paging at any moments of a history of commits, kills and restarts without a reap reads every row there at its first page |
| Reconcile.ReconcileSnapshotRefs | crates/snapstore-server/src/startup.rs:209-273 | it ends, visits every row of every experiment once, leaves every row that is not pruned resolving, and leaves rows that were pruned or resolved as they were |
| Reconcile.ReconcileNext | crates/snapstore-server/src/startup.rs:221-270 | one page further: the cursor advances past exactly the rows visited |

## Left out

- gRPC, HTTP, CLI, metrics, configuration and the blocking client: plumbing.
- The collector's mark phase and policy (crates/snapstore-store/src/gc.rs): only its contract on the page store is used.
- Power loss: a kill keeps file contents and the order of unlinks; packs left unsynced by an earlier process, failed unlinks and directory fsyncs are not modelled.
- I/O errors other than a failing fdatasync, and a failing COMMIT, whose replies the writer still sends as granted.
- Widths of pack ids (32 bits), counters and depths: they are unbounded here, so their wrap-around is not modelled.
- Which handle the read cache evicts (crates/snapstore-pagestore/src/read_cache.rs:38-88): other threads may drop any handle at any time.
- rayon: hashing and reading a batch in parallel is a plain loop.
- Migrations, gc_state, stats, pins listing, and tombstone rows left by nested prunes.
- PageStores.PageStore.Open: takes each pack's sealed state and complete records as given, because `PackLayers` states exactly when the scanners get them right.
- ConcurrentIngest.InterleavedIngest: of the collector only the fence takes part; entries it moves or removes while a batch is being ingested are in StoreRuns.
- PageStores.PageStore.Ingest: one thread on page hashes; threads are in ConcurrentIngest, bytes in PackFiles.
- Readers.PageReader.GetBatch: `Interfere` stands for all other threads, and inside the active lock for all that can run without it.
- Reconcile.ReconcileSnapshotRefs: metadata calls succeed and nobody else writes while the server starts.
