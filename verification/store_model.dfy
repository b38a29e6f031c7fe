/** The page store at record level: packs and sidecars on disk, the index and the writer in memory, and every step the
    process, its garbage collector, a kill and a restart can take. */
module StoreModel {
  import opened Index

  type PackId = nat

  /** Record `slot` of a pack; its byte offset is 20 + 4133 * slot. */
  datatype Loc = Loc(pack: PackId, slot: nat)

  /** `records` counts what was appended; only the first `flushed` of them are surely in the file. */
  datatype Pack = Pack(records: seq<PageHash>, flushed: nat, isSealed: bool)

  /** What a sidecar gives back when it is loaded: for each hash the first slot it lists. A file that is torn or fails its
      checksum does not load and counts as absent; `Spoil` makes one so. */
  type Sidecar = map<PageHash, nat>

  /** `runts` are pack files created but still without their header. */
  datatype Disk = Disk(packs: map<PackId, Pack>, sidecars: map<PackId, Sidecar>, runts: set<PackId>)

  /** Rotation is four disk writes under the active lock; a kill can fall between any two. */
  datatype Phase = Writing | FooterWritten | SidecarWritten | Opening(id: PackId)

  datatype GcPhase = Creating | Filling | Closed

  /** `unsynced` and `lost` are bookkeeping of the model: packs with writes not yet fdatasynced, and those a failed sync
      dropped from the dirty set. `gc` holds compaction packs not yet published, `published` those whose sidecar lists
      all their records, `doomed` packs whose deletion has begun. */
  datatype Mem = Mem(
    index: map<PageHash, Loc>,
    active: PackId,
    phase: Phase,
    nextId: PackId,
    dirty: set<PackId>,
    unsynced: set<PackId>,
    lost: set<PackId>,
    gc: map<PackId, GcPhase>,
    published: set<PackId>,
    doomed: set<PackId>)

  datatype State = Up(disk: Disk, mem: Mem) | Down(disk: Disk)

  // ── Steps ──────────────────────────────────────────────────────────────

  datatype Step =
    // ingest and rotation, under the active lock
    | Append(h: PageHash)
    | Flush
    | SealActive
    | WriteSidecar
    | CreateNext
    | HeadNext
    // sync
    | Sync
    | SyncFails(done: set<PackId>)
    // garbage collection
    | GcCreate
    | GcHead(id: PackId)
    | GcAppend(id: PackId, h: PageHash)
    | GcFlush(id: PackId)
    | GcSeal(id: PackId)
    | GcPublish(id: PackId)
    | Repoint(h: PageHash, from: PackId, to: Loc)
    | Remove(h: PageHash, from: PackId)
    | Doom(id: PackId)
    | UnlinkIdx(id: PackId)
    | UnlinkSpk(id: PackId)
    // kill and restart
    | Kill(cut: map<PackId, nat>)
    | Spoil(id: PackId)
    | DropRunt(id: PackId)
    | SealOld(id: PackId)
    | RebuildSidecar(id: PackId)
    | CreateFirst(id: PackId)
    | HeadFirst(id: PackId)
    | Open(index: map<PageHash, Loc>, active: PackId, nextId: PackId)

  /** The record at `loc` is that of `h`. */
  ghost predicate StoredAt(packs: map<PackId, Pack>, loc: Loc, h: PageHash) {
    loc.pack in packs && loc.slot < |packs[loc.pack].records| && packs[loc.pack].records[loc.slot] == h
  }

  /** The index entries of one pack, as rotation writes them. */
  function EntriesOf(index: map<PageHash, Loc>, id: PackId): Sidecar {
    map h | h in index && index[h].pack == id :: index[h].slot
  }

  function FirstSlot(records: seq<PageHash>, h: PageHash): (i: nat)
    requires h in records
    ensures i < |records| && records[i] == h && forall j :: 0 <= j < i ==> records[j] != h
  {
    if records[0] == h then 0
    else
      var k := FirstSlot(records[1..], h);
      assert forall j :: 0 < j < k + 1 ==> records[j] == records[1..][j - 1];
      k + 1
  }

  /** Every record of a pack, as a scan lists them. */
  function AllOf(records: seq<PageHash>): Sidecar {
    map h | h in records :: FirstSlot(records, h)
  }

  /** What a restart can find on disk: a sealed pack with a sidecar contributes what the sidecar lists, any other pack what
      a scan of its records lists. */
  ghost predicate Recoverable(d: Disk, h: PageHash) {
    exists p :: p in d.packs && Contributes(d, p, h)
  }

  ghost predicate Contributes(d: Disk, p: PackId, h: PageHash)
    requires p in d.packs
  {
    if p in d.sidecars then h in d.sidecars[p] else h in d.packs[p].records
  }

  /** An index a restart may build: every entry comes from some pack's contribution, and nothing recoverable is missing. */
  ghost predicate Loaded(d: Disk, index: map<PageHash, Loc>) {
    && (forall h :: h in index <==> Recoverable(d, h))
    && (forall h :: h in index ==>
          && StoredAt(d.packs, index[h], h)
          && Contributes(d, index[h].pack, h))
  }

  /** The allocator restarts one above the highest pack on disk. */
  ghost predicate OneAbove(ids: set<PackId>, n: PackId) {
    n > 0 && n - 1 in ids && forall p :: p in ids ==> p < n
  }

  ghost predicate Enabled(s: State, step: Step) {
    match step
    case Append(h) => s.Up? && s.mem.phase.Writing? && h !in s.mem.index && s.mem.active in s.disk.packs
    case Flush => s.Up? && s.mem.phase.Writing? && s.mem.active in s.disk.packs
    case SealActive => s.Up? && s.mem.phase.Writing? && s.mem.active in s.disk.packs
    case WriteSidecar => s.Up? && s.mem.phase.FooterWritten?
    case CreateNext => s.Up? && s.mem.phase.SidecarWritten?
    case HeadNext => s.Up? && s.mem.phase.Opening?
    case Sync => s.Up? && s.mem.phase.Writing? && s.mem.dirty + {s.mem.active} <= s.disk.packs.Keys
    case SyncFails(done) =>
      s.Up? && s.mem.phase.Writing? && s.mem.active in s.disk.packs && done <= s.mem.dirty + {s.mem.active}
    case GcCreate => s.Up?
    case GcHead(id) => s.Up? && id in s.mem.gc && s.mem.gc[id].Creating?
    case GcAppend(id, h) => s.Up? && id in s.mem.gc && s.mem.gc[id].Filling? && id in s.disk.packs
    case GcFlush(id) => s.Up? && id in s.mem.gc && s.mem.gc[id].Filling? && id in s.disk.packs
    case GcSeal(id) => s.Up? && id in s.mem.gc && s.mem.gc[id].Filling? && id in s.disk.packs
    case GcPublish(id) => s.Up? && id in s.mem.gc && s.mem.gc[id].Closed? && id in s.disk.packs
    // the collector's contract: only entries of sealed packs move, and only to a published copy of the same page
    case Repoint(h, from, to) =>
      && s.Up? && h in s.mem.index && s.mem.index[h].pack == from != s.mem.active
      && to.pack in s.mem.published && StoredAt(s.disk.packs, to, h)
    case Remove(h, from) => s.Up? && h in s.mem.index && s.mem.index[h].pack == from != s.mem.active
    // ... and a pack is deleted only after every entry is gone
    case Doom(id) =>
      && s.Up? && id in s.disk.packs && id != s.mem.active && id !in s.mem.gc && id !in s.mem.doomed
      && forall h :: h in s.mem.index ==> s.mem.index[h].pack != id
    case UnlinkIdx(id) => s.Up? && id in s.mem.doomed
    case UnlinkSpk(id) => s.Up? && id in s.mem.doomed && id !in s.disk.sidecars
    // the file of an unsealed pack holds at least what was flushed and at most what was appended
    case Kill(cut) =>
      s.Up? && forall p :: p in s.disk.packs && !s.disk.packs[p].isSealed ==>
        p in cut && s.disk.packs[p].flushed <= cut[p] <= |s.disk.packs[p].records|
    case Spoil(id) => s.Down? && id in s.disk.sidecars
    case DropRunt(id) => s.Down? && id in s.disk.runts
    case SealOld(id) => s.Down? && id in s.disk.packs && !s.disk.packs[id].isSealed
    case RebuildSidecar(id) => s.Down? && id in s.disk.packs && s.disk.packs[id].isSealed && id !in s.disk.sidecars
    case CreateFirst(id) => s.Down? && id !in s.disk.packs && id !in s.disk.runts
    case HeadFirst(id) => s.Down? && id in s.disk.runts
    case Open(index, active, nextId) =>
      && s.Down? && s.disk.runts == {} && active in s.disk.packs && Loaded(s.disk, index) && OneAbove(s.disk.packs.Keys, nextId)
      && forall p :: p in s.disk.packs ==> s.disk.packs[p].isSealed == (p != active) && (p != active ==> p in s.disk.sidecars)
  }

  function WithPack(d: Disk, id: PackId, p: Pack): Disk { d.(packs := d.packs[id := p]) }

  function Flushed(p: Pack): Pack { p.(flushed := |p.records|) }

  function Closing(p: Pack): Pack { Pack(p.records, |p.records|, true) }

  function Grown(p: Pack, h: PageHash): Pack { p.(records := p.records + [h]) }

  /** A pack file after a kill: sealed packs are intact, the others keep a prefix. */
  function Survivor(p: Pack, cut: nat): Pack {
    if p.isSealed || cut > |p.records| then p else Pack(p.records[..cut], cut, false)
  }

  function Survivors(packs: map<PackId, Pack>, cut: map<PackId, nat>): map<PackId, Pack> {
    map p | p in packs :: Survivor(packs[p], if p in cut then cut[p] else 0)
  }

  function Ingested(d: Disk, m: Mem, h: PageHash): State
    requires m.active in d.packs
  {
    var p := d.packs[m.active];
    Up(WithPack(d, m.active, Grown(p, h)),
       m.(index := m.index[h := Loc(m.active, |p.records|)], dirty := m.dirty + {m.active}, unsynced := m.unsynced + {m.active}))
  }

  function BufferFlushed(d: Disk, m: Mem, id: PackId): State
    requires id in d.packs
  {
    Up(WithPack(d, id, Flushed(d.packs[id])), m)
  }

  function ActiveSealed(d: Disk, m: Mem): State
    requires m.active in d.packs
  {
    Up(WithPack(d, m.active, Closing(d.packs[m.active])),
       m.(phase := FooterWritten, dirty := m.dirty + {m.active}, unsynced := m.unsynced + {m.active}))
  }

  function SidecarStored(d: Disk, m: Mem): State {
    Up(d.(sidecars := d.sidecars[m.active := EntriesOf(m.index, m.active)]), m.(phase := SidecarWritten))
  }

  function NextCreated(d: Disk, m: Mem): State {
    Up(d.(runts := d.runts + {m.nextId}), m.(phase := Opening(m.nextId), nextId := m.nextId + 1))
  }

  function Headed(d: Disk, id: PackId): Disk {
    d.(packs := d.packs[id := Pack([], 0, false)], runts := d.runts - {id})
  }

  function NextHeaded(d: Disk, m: Mem, id: PackId): State {
    Up(Headed(d, id), m.(phase := Writing, active := id, unsynced := m.unsynced + {id}))
  }

  /** `dirty` is taken as soon as the sync begins, so a failed fdatasync forgets what it had not reached. */
  function Synced(d: Disk, m: Mem, done: set<PackId>): State
    requires m.active in d.packs
  {
    Up(WithPack(d, m.active, Flushed(d.packs[m.active])),
       m.(dirty := {}, unsynced := m.unsynced - done, lost := m.lost + (m.dirty - done - {m.active})))
  }

  function GcCreated(d: Disk, m: Mem): State {
    Up(d.(runts := d.runts + {m.nextId}), m.(gc := m.gc[m.nextId := Creating], nextId := m.nextId + 1))
  }

  function GcHeaded(d: Disk, m: Mem, id: PackId): State {
    Up(Headed(d, id), m.(gc := m.gc[id := Filling], unsynced := m.unsynced + {id}))
  }

  function GcAppended(d: Disk, m: Mem, id: PackId, h: PageHash): State
    requires id in d.packs
  {
    Up(WithPack(d, id, Grown(d.packs[id], h)), m)
  }

  function GcSealed(d: Disk, m: Mem, id: PackId): State
    requires id in d.packs
  {
    Up(WithPack(d, id, Closing(d.packs[id])), m.(gc := m.gc[id := Closed], unsynced := m.unsynced - {id}))
  }

  function Listed(d: Disk, id: PackId): Disk
    requires id in d.packs
  {
    d.(sidecars := d.sidecars[id := AllOf(d.packs[id].records)])
  }

  function GcPublished(d: Disk, m: Mem, id: PackId): State
    requires id in d.packs
  {
    Up(Listed(d, id), m.(gc := m.gc - {id}, published := m.published + {id}))
  }

  function Doomed(d: Disk, m: Mem, id: PackId): State {
    Up(d, m.(dirty := m.dirty - {id}, published := m.published - {id}, doomed := m.doomed + {id}))
  }

  function IdxUnlinked(d: Disk, m: Mem, id: PackId): State {
    Up(d.(sidecars := d.sidecars - {id}), m)
  }

  function SpkUnlinked(d: Disk, m: Mem, id: PackId): State {
    Up(d.(packs := d.packs - {id}),
       m.(doomed := m.doomed - {id}, unsynced := m.unsynced - {id}, lost := m.lost - {id}))
  }

  function Killed(d: Disk, cut: map<PackId, nat>): Disk { d.(packs := Survivors(d.packs, cut)) }

  ghost function Do(s: State, step: Step): State
    requires Enabled(s, step)
  {
    match step
    case Append(h) => Ingested(s.disk, s.mem, h)
    case Flush => BufferFlushed(s.disk, s.mem, s.mem.active)
    case SealActive => ActiveSealed(s.disk, s.mem)
    case WriteSidecar => SidecarStored(s.disk, s.mem)
    case CreateNext => NextCreated(s.disk, s.mem)
    case HeadNext => NextHeaded(s.disk, s.mem, s.mem.phase.id)
    case Sync => Synced(s.disk, s.mem, s.mem.dirty + {s.mem.active})
    case SyncFails(done) => Synced(s.disk, s.mem, done)
    case GcCreate => GcCreated(s.disk, s.mem)
    case GcHead(id) => GcHeaded(s.disk, s.mem, id)
    case GcAppend(id, h) => GcAppended(s.disk, s.mem, id, h)
    case GcFlush(id) => BufferFlushed(s.disk, s.mem, id)
    case GcSeal(id) => GcSealed(s.disk, s.mem, id)
    case GcPublish(id) => GcPublished(s.disk, s.mem, id)
    case Repoint(h, from, to) => Up(s.disk, s.mem.(index := s.mem.index[h := to]))
    case Remove(h, from) => Up(s.disk, s.mem.(index := s.mem.index - {h}))
    case Doom(id) => Doomed(s.disk, s.mem, id)
    case UnlinkIdx(id) => IdxUnlinked(s.disk, s.mem, id)
    case UnlinkSpk(id) => SpkUnlinked(s.disk, s.mem, id)
    case Kill(cut) => Down(Killed(s.disk, cut))
    case Spoil(id) => Down(s.disk.(sidecars := s.disk.sidecars - {id}))
    case DropRunt(id) => Down(s.disk.(runts := s.disk.runts - {id}))
    case SealOld(id) => Down(WithPack(s.disk, id, Closing(s.disk.packs[id])))
    case RebuildSidecar(id) => Down(Listed(s.disk, id))
    case CreateFirst(id) => Down(s.disk.(runts := s.disk.runts + {id}))
    case HeadFirst(id) => Down(Headed(s.disk, id))
    case Open(index, active, nextId) => Up(s.disk, Mem(index, active, Writing, nextId, {}, {active}, {}, map[], {}, {}))
  }

  // ── Invariant ──────────────────────────────────────────────────────────

  ghost predicate SidecarSound(d: Disk, p: PackId)
    requires p in d.packs && p in d.sidecars
  {
    forall h :: h in d.sidecars[p] ==> StoredAt(d.packs, Loc(p, d.sidecars[p][h]), h)
  }

  /** Every sidecar belongs to a sealed pack on disk and lists only its records; a sealed pack is complete in its file. */
  ghost predicate DiskInv(d: Disk) {
    && (forall p :: p in d.sidecars ==> p in d.packs && d.packs[p].isSealed && SidecarSound(d, p))
    && (forall p :: p in d.packs ==>
          && d.packs[p].flushed <= |d.packs[p].records|
          && (d.packs[p].isSealed ==> d.packs[p].flushed == |d.packs[p].records|)
          && p !in d.runts)
  }

  /** Every index entry names a record of its hash, in a published sealed pack or the active one, that no deletion has begun
      on; and where that pack has a sidecar, the sidecar lists the hash. */
  ghost predicate IndexInv(d: Disk, m: Mem) {
    forall h :: h in m.index ==>
      && StoredAt(d.packs, m.index[h], h)
      && (d.packs[m.index[h].pack].isSealed || m.index[h].pack == m.active)
      && m.index[h].pack !in m.doomed && m.index[h].pack !in m.gc
      && (m.index[h].pack in d.sidecars ==> h in d.sidecars[m.index[h].pack])
  }

  ghost predicate ActiveInv(d: Disk, m: Mem) {
    && m.active in d.packs
    && d.packs[m.active].isSealed == !m.phase.Writing?
    && (m.active in d.sidecars <==> m.phase.SidecarWritten? || m.phase.Opening?)
    && (m.phase.Opening? ==> m.phase.id in d.runts && m.phase.id !in m.gc)
  }

  ghost predicate Fully(d: Disk, p: PackId)
    requires p in d.packs
  {
    p in d.sidecars && forall i :: 0 <= i < |d.packs[p].records| ==> d.packs[p].records[i] in d.sidecars[p]
  }

  ghost predicate GcInv(d: Disk, m: Mem) {
    && (forall p :: p in m.gc ==>
          && p != m.active && p !in m.published && p !in m.doomed && p !in d.sidecars
          && (m.gc[p].Creating? ==> p in d.runts)
          && (!m.gc[p].Creating? ==> p in d.packs && d.packs[p].isSealed == m.gc[p].Closed?))
    && (forall p :: p in m.published ==> p in d.packs && d.packs[p].isSealed && p != m.active && p !in m.doomed && Fully(d, p))
    && (forall p :: p in m.doomed ==> p in d.packs && d.packs[p].isSealed && p != m.active)
    && (forall p :: p in d.packs && !d.packs[p].isSealed ==> p == m.active || p in m.gc)
    && (forall p :: p in d.packs && p !in d.sidecars ==> p == m.active || p in m.gc || p in m.doomed)
  }

  ghost predicate IdInv(d: Disk, m: Mem) {
    forall p :: p in d.packs || p in d.runts ==> p < m.nextId
  }

  ghost predicate SyncInv(d: Disk, m: Mem) {
    && m.dirty <= d.packs.Keys
    && m.dirty <= m.unsynced <= d.packs.Keys
    && m.lost <= m.unsynced
    && m.active !in m.lost
    && (m.phase.Writing? || m.active in m.dirty)
    && m.dirty !! m.doomed
    && m.lost !! m.dirty
    && (forall p :: p in m.gc ==> p !in m.dirty && p !in m.lost && (m.gc[p].Closed? ==> p !in m.unsynced))
    && (forall p :: p in m.unsynced ==> p in m.dirty || p == m.active || p in m.lost || p in m.gc || p in m.doomed)
  }

  /** What each pack is to the running process. */
  ghost predicate RoleInv(d: Disk, m: Mem) {
    ActiveInv(d, m) && GcInv(d, m) && IdInv(d, m)
  }

  ghost predicate Inv(s: State) {
    && DiskInv(s.disk)
    && (s.Up? ==> IndexInv(s.disk, s.mem) && RoleInv(s.disk, s.mem) && SyncInv(s.disk, s.mem))
  }

  // ── Every step keeps the invariant ─────────────────────────────────────

  /** Appending, flushing and sealing only ever extend a pack. */
  ghost predicate Extends(p: Pack, q: Pack) {
    && p.records <= q.records && p.flushed <= q.flushed <= |q.records|
    && (q.isSealed ==> q.flushed == |q.records|)
    && (p.isSealed ==> q == p)
  }

  lemma ExtendKeepsDisk(d: Disk, id: PackId, q: Pack)
    requires DiskInv(d) && id in d.packs && Extends(d.packs[id], q)
    ensures DiskInv(WithPack(d, id, q))
  {
  }

  lemma ExtendKeepsIndex(d: Disk, m: Mem, id: PackId, q: Pack)
    requires IndexInv(d, m) && id in d.packs && Extends(d.packs[id], q)
    ensures IndexInv(WithPack(d, id, q), m)
  {
  }

  lemma ExtendKeepsRoles(d: Disk, m: Mem, id: PackId, q: Pack)
    requires RoleInv(d, m) && id in d.packs && Extends(d.packs[id], q) && q.isSealed == d.packs[id].isSealed
    ensures RoleInv(WithPack(d, id, q), m)
  {
  }

  lemma HeadKeepsDisk(d: Disk, id: PackId)
    requires DiskInv(d) && id in d.runts
    ensures DiskInv(Headed(d, id))
  {
  }

  lemma ListKeepsDisk(d: Disk, id: PackId)
    requires DiskInv(d) && id in d.packs && d.packs[id].isSealed
    ensures DiskInv(Listed(d, id))
  {
  }

  lemma AppendKeepsIndex(d: Disk, m: Mem, h: PageHash)
    requires IndexInv(d, m) && RoleInv(d, m) && DiskInv(d) && m.phase.Writing? && h !in m.index
    ensures IndexInv(Ingested(d, m, h).disk, Ingested(d, m, h).mem)
  {
  }

  lemma AppendKeepsSync(d: Disk, m: Mem, h: PageHash)
    requires SyncInv(d, m) && RoleInv(d, m) && m.phase.Writing? && h !in m.index
    ensures SyncInv(Ingested(d, m, h).disk, Ingested(d, m, h).mem)
  {
  }

  lemma AppendKeeps(d: Disk, m: Mem, h: PageHash)
    requires Inv(Up(d, m)) && m.phase.Writing? && h !in m.index
    ensures Inv(Ingested(d, m, h))
  {
    ExtendKeepsDisk(d, m.active, Grown(d.packs[m.active], h));
    AppendKeepsIndex(d, m, h);
    ExtendKeepsRoles(d, m, m.active, Grown(d.packs[m.active], h));
    AppendKeepsSync(d, m, h);
  }

  lemma FlushKeeps(d: Disk, m: Mem, id: PackId)
    requires Inv(Up(d, m)) && id in d.packs
    ensures Inv(BufferFlushed(d, m, id))
  {
    var q := Flushed(d.packs[id]);
    ExtendKeepsDisk(d, id, q);
    ExtendKeepsIndex(d, m, id, q);
    ExtendKeepsRoles(d, m, id, q);
  }

  lemma SealKeepsRoles(d: Disk, m: Mem)
    requires RoleInv(d, m) && m.phase.Writing?
    ensures RoleInv(ActiveSealed(d, m).disk, ActiveSealed(d, m).mem)
  {
  }

  lemma SealKeepsSync(d: Disk, m: Mem)
    requires SyncInv(d, m) && RoleInv(d, m) && m.phase.Writing?
    ensures SyncInv(ActiveSealed(d, m).disk, ActiveSealed(d, m).mem)
  {
  }

  lemma SealKeeps(d: Disk, m: Mem)
    requires Inv(Up(d, m)) && m.phase.Writing?
    ensures Inv(ActiveSealed(d, m))
  {
    ExtendKeepsDisk(d, m.active, Closing(d.packs[m.active]));
    ExtendKeepsIndex(d, m, m.active, Closing(d.packs[m.active]));
    SealKeepsRoles(d, m);
    SealKeepsSync(d, m);
  }

  lemma SidecarKeepsIndex(d: Disk, m: Mem)
    requires IndexInv(d, m) && RoleInv(d, m) && DiskInv(d) && m.phase.FooterWritten?
    ensures IndexInv(SidecarStored(d, m).disk, SidecarStored(d, m).mem)
  {
  }

  lemma SidecarKeepsRoles(d: Disk, m: Mem)
    requires RoleInv(d, m) && m.phase.FooterWritten?
    ensures RoleInv(SidecarStored(d, m).disk, SidecarStored(d, m).mem)
  {
  }

  lemma SidecarKeepsSync(d: Disk, m: Mem)
    requires SyncInv(d, m) && RoleInv(d, m) && m.phase.FooterWritten?
    ensures SyncInv(SidecarStored(d, m).disk, SidecarStored(d, m).mem)
  {
  }

  lemma SidecarKeeps(d: Disk, m: Mem)
    requires Inv(Up(d, m)) && m.phase.FooterWritten?
    ensures Inv(SidecarStored(d, m))
  {
    SidecarKeepsIndex(d, m);
    SidecarKeepsRoles(d, m);
    SidecarKeepsSync(d, m);
  }

  lemma GcIdsAreTaken(d: Disk, m: Mem)
    requires RoleInv(d, m)
    ensures forall p :: p in m.gc ==> p < m.nextId
  {
  }

  lemma CreateKeepsIndex(d: Disk, m: Mem)
    requires IndexInv(d, m)
    ensures IndexInv(NextCreated(d, m).disk, NextCreated(d, m).mem)
  {
  }

  lemma CreateKeepsRoles(d: Disk, m: Mem)
    requires RoleInv(d, m) && m.phase.SidecarWritten? && forall p :: p in m.gc ==> p < m.nextId
    ensures RoleInv(NextCreated(d, m).disk, NextCreated(d, m).mem)
  {
  }

  lemma CreateKeeps(d: Disk, m: Mem)
    requires Inv(Up(d, m)) && m.phase.SidecarWritten?
    ensures Inv(NextCreated(d, m))
  {
    GcIdsAreTaken(d, m);
    CreateKeepsIndex(d, m);
    CreateKeepsRoles(d, m);
  }

  lemma HeadKeepsIndex(d: Disk, m: Mem)
    requires IndexInv(d, m) && RoleInv(d, m) && DiskInv(d) && m.phase.Opening?
    ensures IndexInv(NextHeaded(d, m, m.phase.id).disk, NextHeaded(d, m, m.phase.id).mem)
  {
  }

  lemma HeadKeepsRoles(d: Disk, m: Mem)
    requires DiskInv(d) && RoleInv(d, m) && m.phase.Opening?
    ensures RoleInv(NextHeaded(d, m, m.phase.id).disk, NextHeaded(d, m, m.phase.id).mem)
  {
  }

  lemma HeadKeepsSync(d: Disk, m: Mem)
    requires DiskInv(d) && SyncInv(d, m) && RoleInv(d, m) && m.phase.Opening?
    ensures SyncInv(NextHeaded(d, m, m.phase.id).disk, NextHeaded(d, m, m.phase.id).mem)
  {
  }

  lemma HeadKeeps(d: Disk, m: Mem)
    requires Inv(Up(d, m)) && m.phase.Opening?
    ensures Inv(NextHeaded(d, m, m.phase.id))
  {
    HeadKeepsDisk(d, m.phase.id);
    HeadKeepsIndex(d, m);
    HeadKeepsRoles(d, m);
    HeadKeepsSync(d, m);
  }

  lemma SyncKeepsSync(d: Disk, m: Mem, done: set<PackId>)
    requires DiskInv(d) && SyncInv(d, m) && RoleInv(d, m) && m.phase.Writing? && done <= m.dirty + {m.active}
    ensures SyncInv(Synced(d, m, done).disk, Synced(d, m, done).mem)
  {
  }

  lemma SyncKeeps(d: Disk, m: Mem, done: set<PackId>)
    requires Inv(Up(d, m)) && m.phase.Writing? && done <= m.dirty + {m.active}
    ensures Inv(Synced(d, m, done))
  {
    ExtendKeepsDisk(d, m.active, Flushed(d.packs[m.active]));
    ExtendKeepsIndex(d, m, m.active, Flushed(d.packs[m.active]));
    ExtendKeepsRoles(d, m, m.active, Flushed(d.packs[m.active]));
    SyncKeepsSync(d, m, done);
  }

  lemma GcCreateKeepsIndex(d: Disk, m: Mem)
    requires IndexInv(d, m) && IdInv(d, m)
    ensures IndexInv(GcCreated(d, m).disk, GcCreated(d, m).mem)
  {
  }

  lemma GcCreateKeepsRoles(d: Disk, m: Mem)
    requires RoleInv(d, m) && DiskInv(d)
    ensures RoleInv(GcCreated(d, m).disk, GcCreated(d, m).mem)
  {
  }

  lemma GcCreateKeepsSync(d: Disk, m: Mem)
    requires SyncInv(d, m) && RoleInv(d, m)
    ensures SyncInv(GcCreated(d, m).disk, GcCreated(d, m).mem)
  {
  }

  lemma GcCreateKeeps(d: Disk, m: Mem)
    requires Inv(Up(d, m))
    ensures Inv(GcCreated(d, m))
  {
    GcCreateKeepsIndex(d, m);
    GcCreateKeepsRoles(d, m);
    GcCreateKeepsSync(d, m);
  }

  lemma GcHeadKeepsIndex(d: Disk, m: Mem, id: PackId)
    requires IndexInv(d, m) && RoleInv(d, m) && DiskInv(d) && id in m.gc && m.gc[id].Creating?
    ensures IndexInv(GcHeaded(d, m, id).disk, GcHeaded(d, m, id).mem)
  {
  }

  lemma GcHeadKeepsRoles(d: Disk, m: Mem, id: PackId)
    requires RoleInv(d, m) && id in m.gc && m.gc[id].Creating?
    ensures RoleInv(GcHeaded(d, m, id).disk, GcHeaded(d, m, id).mem)
  {
  }

  lemma GcHeadKeepsSync(d: Disk, m: Mem, id: PackId)
    requires SyncInv(d, m) && RoleInv(d, m) && id in m.gc && m.gc[id].Creating?
    ensures SyncInv(GcHeaded(d, m, id).disk, GcHeaded(d, m, id).mem)
  {
  }

  lemma GcHeadKeeps(d: Disk, m: Mem, id: PackId)
    requires Inv(Up(d, m)) && id in m.gc && m.gc[id].Creating?
    ensures Inv(GcHeaded(d, m, id))
  {
    HeadKeepsDisk(d, id);
    GcHeadKeepsIndex(d, m, id);
    GcHeadKeepsRoles(d, m, id);
    GcHeadKeepsSync(d, m, id);
  }

  lemma GcAppendKeeps(d: Disk, m: Mem, id: PackId, h: PageHash)
    requires Inv(Up(d, m)) && id in m.gc && m.gc[id].Filling?
    ensures Inv(GcAppended(d, m, id, h))
  {
    var q := Grown(d.packs[id], h);
    ExtendKeepsDisk(d, id, q);
    ExtendKeepsIndex(d, m, id, q);
    ExtendKeepsRoles(d, m, id, q);
  }

  lemma GcSealKeepsRoles(d: Disk, m: Mem, id: PackId)
    requires RoleInv(d, m) && id in m.gc && m.gc[id].Filling?
    ensures RoleInv(GcSealed(d, m, id).disk, GcSealed(d, m, id).mem)
  {
  }

  lemma GcSealKeepsSync(d: Disk, m: Mem, id: PackId)
    requires SyncInv(d, m) && RoleInv(d, m) && id in m.gc && m.gc[id].Filling?
    ensures SyncInv(GcSealed(d, m, id).disk, GcSealed(d, m, id).mem)
  {
  }

  lemma GcSealKeeps(d: Disk, m: Mem, id: PackId)
    requires Inv(Up(d, m)) && id in m.gc && m.gc[id].Filling?
    ensures Inv(GcSealed(d, m, id))
  {
    ExtendKeepsDisk(d, id, Closing(d.packs[id]));
    ExtendKeepsIndex(d, m, id, Closing(d.packs[id]));
    GcSealKeepsRoles(d, m, id);
    GcSealKeepsSync(d, m, id);
  }

  lemma GcPublishKeepsIndex(d: Disk, m: Mem, id: PackId)
    requires IndexInv(d, m) && RoleInv(d, m) && DiskInv(d) && id in m.gc && m.gc[id].Closed?
    ensures IndexInv(GcPublished(d, m, id).disk, GcPublished(d, m, id).mem)
  {
  }

  lemma GcPublishKeepsRoles(d: Disk, m: Mem, id: PackId)
    requires RoleInv(d, m) && id in m.gc && m.gc[id].Closed?
    ensures RoleInv(GcPublished(d, m, id).disk, GcPublished(d, m, id).mem)
  {
  }

  lemma GcPublishKeepsSync(d: Disk, m: Mem, id: PackId)
    requires SyncInv(d, m) && RoleInv(d, m) && id in m.gc && m.gc[id].Closed?
    ensures SyncInv(GcPublished(d, m, id).disk, GcPublished(d, m, id).mem)
  {
  }

  lemma GcPublishKeeps(d: Disk, m: Mem, id: PackId)
    requires Inv(Up(d, m)) && id in m.gc && m.gc[id].Closed?
    ensures Inv(GcPublished(d, m, id))
  {
    ListKeepsDisk(d, id);
    GcPublishKeepsIndex(d, m, id);
    GcPublishKeepsRoles(d, m, id);
    GcPublishKeepsSync(d, m, id);
  }

  lemma RepointKeeps(d: Disk, m: Mem, h: PageHash, to: Loc)
    requires Inv(Up(d, m)) && to.pack in m.published && StoredAt(d.packs, to, h)
    ensures Inv(Up(d, m.(index := m.index[h := to])))
  {
  }

  lemma RemoveKeeps(d: Disk, m: Mem, h: PageHash)
    requires Inv(Up(d, m)) && h in m.index
    ensures Inv(Up(d, m.(index := m.index - {h})))
  {
  }

  lemma DoomKeeps(d: Disk, m: Mem, id: PackId)
    requires Inv(Up(d, m)) && Enabled(Up(d, m), Doom(id))
    ensures Inv(Doomed(d, m, id))
  {
  }

  lemma UnlinkIdxKeeps(d: Disk, m: Mem, id: PackId)
    requires Inv(Up(d, m)) && id in m.doomed
    ensures Inv(IdxUnlinked(d, m, id))
  {
  }

  lemma UnlinkSpkKeepsIndex(d: Disk, m: Mem, id: PackId)
    requires IndexInv(d, m) && RoleInv(d, m) && DiskInv(d) && id in m.doomed && id !in d.sidecars
    ensures IndexInv(SpkUnlinked(d, m, id).disk, SpkUnlinked(d, m, id).mem)
  {
  }

  lemma UnlinkSpkKeepsRoles(d: Disk, m: Mem, id: PackId)
    requires RoleInv(d, m) && id in m.doomed && id !in d.sidecars
    ensures RoleInv(SpkUnlinked(d, m, id).disk, SpkUnlinked(d, m, id).mem)
  {
  }

  lemma UnlinkSpkKeepsSync(d: Disk, m: Mem, id: PackId)
    requires SyncInv(d, m) && RoleInv(d, m) && id in m.doomed && id !in d.sidecars
    ensures SyncInv(SpkUnlinked(d, m, id).disk, SpkUnlinked(d, m, id).mem)
  {
  }

  lemma UnlinkSpkKeeps(d: Disk, m: Mem, id: PackId)
    requires Inv(Up(d, m)) && id in m.doomed && id !in d.sidecars
    ensures Inv(SpkUnlinked(d, m, id))
  {
    UnlinkSpkKeepsIndex(d, m, id);
    UnlinkSpkKeepsRoles(d, m, id);
    UnlinkSpkKeepsSync(d, m, id);
  }

}
