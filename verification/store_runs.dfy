/** What holds over every run of the page store: the invariant, recovery after a kill at any moment, what a sync makes
    durable, and fresh pack ids. */
module StoreRuns {
  import opened Index
  import opened StoreModel

  lemma OpenKeeps(d: Disk, index: map<PageHash, Loc>, active: PackId, nextId: PackId)
    requires DiskInv(d) && Enabled(Down(d), Open(index, active, nextId))
    ensures Inv(Do(Down(d), Open(index, active, nextId)))
  {
  }

  lemma KillKeeps(d: Disk, m: Mem, cut: map<PackId, nat>)
    requires Inv(Up(d, m)) && Enabled(Up(d, m), Kill(cut))
    ensures DiskInv(Killed(d, cut))
  {
  }

  lemma RestartKeeps(d: Disk, step: Step)
    requires DiskInv(d) && Enabled(Down(d), step) && !step.Open?
    ensures DiskInv(Do(Down(d), step).disk)
  {
    match step {
      case SealOld(id) => ExtendKeepsDisk(d, id, Closing(d.packs[id]));
      case RebuildSidecar(id) => ListKeepsDisk(d, id);
      case HeadFirst(id) => HeadKeepsDisk(d, id);
      case _ =>
    }
  }

  ghost predicate WriterStep(step: Step) {
    || step.Append? || step.Flush? || step.SealActive? || step.WriteSidecar? || step.CreateNext? || step.HeadNext?
    || step.Sync? || step.SyncFails?
  }

  lemma WriterStepKeeps(d: Disk, m: Mem, step: Step)
    requires Inv(Up(d, m)) && Enabled(Up(d, m), step) && WriterStep(step)
    ensures Inv(Do(Up(d, m), step))
  {
    match step {
      case Append(h) => AppendKeeps(d, m, h);
      case Flush => FlushKeeps(d, m, m.active);
      case SealActive => SealKeeps(d, m);
      case WriteSidecar => SidecarKeeps(d, m);
      case CreateNext => CreateKeeps(d, m);
      case HeadNext => HeadKeeps(d, m);
      case Sync => SyncKeeps(d, m, m.dirty + {m.active});
      case SyncFails(done) => SyncKeeps(d, m, done);
    }
  }

  lemma CollectorStepKeeps(d: Disk, m: Mem, step: Step)
    requires Inv(Up(d, m)) && Enabled(Up(d, m), step) && !WriterStep(step)
    ensures Inv(Do(Up(d, m), step))
  {
    match step {
      case GcCreate => GcCreateKeeps(d, m);
      case GcHead(id) => GcHeadKeeps(d, m, id);
      case GcAppend(id, h) => GcAppendKeeps(d, m, id, h);
      case GcFlush(id) => FlushKeeps(d, m, id);
      case GcSeal(id) => GcSealKeeps(d, m, id);
      case GcPublish(id) => GcPublishKeeps(d, m, id);
      case Repoint(h, from, to) => RepointKeeps(d, m, h, to);
      case Remove(h, from) => RemoveKeeps(d, m, h);
      case Doom(id) => DoomKeeps(d, m, id);
      case UnlinkIdx(id) => UnlinkIdxKeeps(d, m, id);
      case UnlinkSpk(id) => UnlinkSpkKeeps(d, m, id);
      case Kill(cut) => KillKeeps(d, m, cut);
    }
  }

  lemma StepKeeps(s: State, step: Step)
    requires Inv(s) && Enabled(s, step)
    ensures Inv(Do(s, step))
  {
    if s.Down? {
      if step.Open? {
        OpenKeeps(s.disk, step.index, step.active, step.nextId);
      } else {
        RestartKeeps(s.disk, step);
      }
    } else if WriterStep(step) {
      WriterStepKeeps(s.disk, s.mem, step);
    } else {
      CollectorStepKeeps(s.disk, s.mem, step);
    }
  }

  // ── Runs ───────────────────────────────────────────────────────────────

  /** An empty directory. */
  function Empty(): State { Down(Disk(map[], map[], {})) }

  ghost predicate CanRun(s: State, steps: seq<Step>)
    decreases |steps|
  {
    steps == [] || (Enabled(s, steps[0]) && CanRun(Do(s, steps[0]), steps[1..]))
  }

  ghost function Run(s: State, steps: seq<Step>): State
    requires CanRun(s, steps)
    decreases |steps|
  {
    if steps == [] then s else Run(Do(s, steps[0]), steps[1..])
  }

  /** Whatever the writer, the collector, kills and restarts do and in whatever order, the invariant holds. */
  lemma {:induction false} RunKeeps(s: State, steps: seq<Step>)
    requires Inv(s) && CanRun(s, steps)
    ensures Inv(Run(s, steps))
    decreases |steps|
  {
    if steps != [] {
      StepKeeps(s, steps[0]);
      RunKeeps(Do(s, steps[0]), steps[1..]);
    }
  }

  /** In every state any run reaches: a sidecar belongs to a sealed pack on disk and lists only its records; every index
      entry names a record of its hash; and unless it is in the active pack, that pack has a sidecar listing it. */
  lemma SidecarsCoverTheIndex(steps: seq<Step>)
    requires CanRun(Empty(), steps)
    ensures Inv(Run(Empty(), steps))
    ensures var t := Run(Empty(), steps);
      && (forall p :: p in t.disk.sidecars ==> p in t.disk.packs && t.disk.packs[p].isSealed && SidecarSound(t.disk, p))
      && (t.Up? ==> forall h :: h in t.mem.index ==>
            && StoredAt(t.disk.packs, t.mem.index[h], h)
            && (t.mem.index[h].pack in t.disk.sidecars ==> h in t.disk.sidecars[t.mem.index[h].pack])
            && (t.mem.index[h].pack != t.mem.active ==> t.mem.index[h].pack in t.disk.sidecars))
  {
    RunKeeps(Empty(), steps);
  }

  // ── Recovery ───────────────────────────────────────────────────────────

  /** The record an index entry names is still in its file after the kill. */
  ghost predicate InFile(d: Disk, loc: Loc, cut: map<PackId, nat>) {
    loc.pack in d.packs && (d.packs[loc.pack].isSealed || (loc.pack in cut && loc.slot < cut[loc.pack]))
  }

  lemma KilledKeepsIndexed(d: Disk, m: Mem, cut: map<PackId, nat>, h: PageHash)
    requires Inv(Up(d, m)) && Enabled(Up(d, m), Kill(cut))
    requires h in m.index && InFile(d, m.index[h], cut)
    ensures Recoverable(Killed(d, cut), h)
  {
    var loc := m.index[h];
    var k := Killed(d, cut);
    assert StoredAt(d.packs, loc, h);
    assert Contributes(k, loc.pack, h) by {
      if loc.pack !in d.sidecars {
        assert k.packs[loc.pack].records[loc.slot] == h;
      }
    }
  }

  lemma RestartKeepsContribution(d: Disk, step: Step, h: PageHash, p: PackId)
    requires DiskInv(d) && Enabled(Down(d), step) && RepairStep(step) && p in Do(Down(d), step).disk.packs
    ensures Contributes(Do(Down(d), step).disk, p, h) <==> p in d.packs && Contributes(d, p, h)
  {
  }

  /** No repair made while restarting adds or loses a page. */
  lemma RestartKeepsRecoverable(d: Disk, step: Step, h: PageHash)
    requires DiskInv(d) && Enabled(Down(d), step) && RepairStep(step)
    ensures Recoverable(Do(Down(d), step).disk, h) <==> Recoverable(d, h)
  {
    var e := Do(Down(d), step).disk;
    forall p | p in e.packs
      ensures Contributes(e, p, h) <==> p in d.packs && Contributes(d, p, h)
    {
      RestartKeepsContribution(d, step, h, p);
    }
    assert d.packs.Keys <= e.packs.Keys;
    if Recoverable(d, h) {
      var p :| p in d.packs && Contributes(d, p, h);
      assert p in e.packs;
    }
  }

  ghost predicate Repairs(steps: seq<Step>) {
    forall i :: 0 <= i < |steps| ==> RepairStep(steps[i])
  }

  ghost predicate RepairStep(step: Step) {
    step.DropRunt? || step.SealOld? || step.RebuildSidecar? || step.CreateFirst? || step.HeadFirst?
  }

  lemma {:induction false} RepairsKeepRecoverable(d: Disk, steps: seq<Step>, h: PageHash)
    requires DiskInv(d) && CanRun(Down(d), steps) && Repairs(steps)
    ensures Run(Down(d), steps).Down? && DiskInv(Run(Down(d), steps).disk)
    ensures Recoverable(Run(Down(d), steps).disk, h) <==> Recoverable(d, h)
    decreases |steps|
  {
    if steps != [] {
      assert RepairStep(steps[0]);
      RestartKeeps(d, steps[0]);
      RestartKeepsRecoverable(d, steps[0], h);
      RepairsKeepRecoverable(Do(Down(d), steps[0]).disk, steps[1..], h);
    }
  }

  /** Kill a running store anywhere, repair in any number of interrupted attempts, open it: the index names exactly the
      pages the killed disk still held, and so every page indexed at the kill whose record was in its file. */
  lemma CrashRecovery(d: Disk, m: Mem, cut: map<PackId, nat>, repairs: seq<Step>, open: Step)
    requires Inv(Up(d, m)) && Enabled(Up(d, m), Kill(cut))
    requires CanRun(Down(Killed(d, cut)), repairs) && Repairs(repairs)
    requires open.Open? && Enabled(Run(Down(Killed(d, cut)), repairs), open)
    ensures var t := Do(Run(Down(Killed(d, cut)), repairs), open);
      && t.Up? && Inv(t)
      && (forall h :: h in t.mem.index <==> Recoverable(Killed(d, cut), h))
      && (forall h :: h in t.mem.index ==> StoredAt(t.disk.packs, t.mem.index[h], h))
      && (forall h :: h in m.index && InFile(d, m.index[h], cut) ==> h in t.mem.index)
  {
    KillKeeps(d, m, cut);
    var k := Killed(d, cut);
    RunKeeps(Down(k), repairs);
    var r := Run(Down(k), repairs);
    StepKeeps(r, open);
    forall h
      ensures Recoverable(r.disk, h) <==> Recoverable(k, h)
    {
      RepairsKeepRecoverable(k, repairs, h);
    }
    forall h | h in m.index && InFile(d, m.index[h], cut)
      ensures Recoverable(k, h)
    {
      KilledKeepsIndexed(d, m, cut, h);
    }
  }

  /** Losing a sidecar loses no page: the pack is scanned instead. */
  lemma SpoilKeepsRecoverable(d: Disk, id: PackId, h: PageHash)
    requires DiskInv(d) && id in d.sidecars && Recoverable(d, h)
    ensures Recoverable(d.(sidecars := d.sidecars - {id}), h)
  {
    var e := d.(sidecars := d.sidecars - {id});
    var p :| p in d.packs && Contributes(d, p, h);
    assert Contributes(e, p, h) by {
      if p == id {
        assert StoredAt(d.packs, Loc(p, d.sidecars[p][h]), h);
      }
    }
  }

  lemma {:induction false} SpoiledRepairsKeepRecoverable(d: Disk, steps: seq<Step>, h: PageHash)
    requires DiskInv(d) && CanRun(Down(d), steps) && Recoverable(d, h)
    requires forall i :: 0 <= i < |steps| ==> RepairStep(steps[i]) || steps[i].Spoil?
    ensures Run(Down(d), steps).Down? && Recoverable(Run(Down(d), steps).disk, h)
    decreases |steps|
  {
    if steps != [] {
      RestartKeeps(d, steps[0]);
      if steps[0].Spoil? {
        SpoilKeepsRecoverable(d, steps[0].id, h);
      } else {
        RestartKeepsRecoverable(d, steps[0], h);
      }
      SpoiledRepairsKeepRecoverable(Do(Down(d), steps[0]).disk, steps[1..], h);
    }
  }

  /** The same if any sidecars are found torn or corrupt between the kill and the open: every page indexed at the kill whose
      record was in its file is in the index again, and every entry names a record of its hash. */
  lemma CrashRecoveryWithoutSidecars(d: Disk, m: Mem, cut: map<PackId, nat>, repairs: seq<Step>, open: Step)
    requires Inv(Up(d, m)) && Enabled(Up(d, m), Kill(cut))
    requires CanRun(Down(Killed(d, cut)), repairs)
    requires forall i :: 0 <= i < |repairs| ==> RepairStep(repairs[i]) || repairs[i].Spoil?
    requires open.Open? && Enabled(Run(Down(Killed(d, cut)), repairs), open)
    ensures var t := Do(Run(Down(Killed(d, cut)), repairs), open);
      && t.Up? && Inv(t)
      && (forall h :: h in t.mem.index ==> StoredAt(t.disk.packs, t.mem.index[h], h))
      && (forall h :: h in m.index && InFile(d, m.index[h], cut) ==> h in t.mem.index)
  {
    KillKeeps(d, m, cut);
    OpenedIsSound(Killed(d, cut), repairs, open);
    forall h | h in m.index && InFile(d, m.index[h], cut)
      ensures h in Do(Run(Down(Killed(d, cut)), repairs), open).mem.index
    {
      StillFound(d, m, cut, repairs, open, h);
    }
  }

  lemma OpenedIsSound(k: Disk, repairs: seq<Step>, open: Step)
    requires DiskInv(k) && CanRun(Down(k), repairs) && open.Open? && Enabled(Run(Down(k), repairs), open)
    ensures var t := Do(Run(Down(k), repairs), open);
      t.Up? && Inv(t) && forall h :: h in t.mem.index ==> StoredAt(t.disk.packs, t.mem.index[h], h)
  {
    RunKeeps(Down(k), repairs);
    StepKeeps(Run(Down(k), repairs), open);
  }

  lemma StillFound(d: Disk, m: Mem, cut: map<PackId, nat>, repairs: seq<Step>, open: Step, h: PageHash)
    requires Inv(Up(d, m)) && Enabled(Up(d, m), Kill(cut)) && DiskInv(Killed(d, cut)) && CanRun(Down(Killed(d, cut)), repairs)
    requires forall i :: 0 <= i < |repairs| ==> RepairStep(repairs[i]) || repairs[i].Spoil?
    requires open.Open? && Enabled(Run(Down(Killed(d, cut)), repairs), open)
    requires h in m.index && InFile(d, m.index[h], cut)
    ensures h in Do(Run(Down(Killed(d, cut)), repairs), open).mem.index
  {
    KilledKeepsIndexed(d, m, cut, h);
    SpoiledRepairsKeepRecoverable(Killed(d, cut), repairs, h);
  }

  // ── Sync ───────────────────────────────────────────────────────────────

  /** In no state any run reaches does a sync meet a pack file that is gone, whatever was unlinked since the last one. */
  lemma SyncFindsItsFiles(steps: seq<Step>)
    requires CanRun(Empty(), steps)
    ensures var t := Run(Empty(), steps);
      t.Up? ==> t.mem.dirty + {t.mem.active} <= t.disk.packs.Keys && (t.mem.phase.Writing? ==> Enabled(t, Sync))
  {
    RunKeeps(Empty(), steps);
  }

  /** A sync leaves no ingest pack unsynced exactly when no earlier sync failed part-way on a pack that is still kept. */
  lemma SyncMakesDurable(s: State)
    requires Inv(s) && Enabled(s, Sync)
    ensures var t := Do(s, Sync);
      && (forall p :: p in t.mem.unsynced && p !in t.mem.gc && p !in t.mem.doomed ==> p in s.mem.lost)
      && ((forall p :: p in t.mem.unsynced ==> p in t.mem.gc || p in t.mem.doomed) <==> s.mem.lost <= s.mem.doomed)
      && (forall p :: p in t.disk.packs && p !in t.mem.gc ==> t.disk.packs[p].flushed == |t.disk.packs[p].records|)
  {
    SyncKeeps(s.disk, s.mem, s.mem.dirty + {s.mem.active});
    var t := Do(s, Sync);
    assert s.mem.lost <= t.mem.unsynced;
    assert forall p :: p in s.mem.lost ==> p !in s.mem.gc;
  }

  /** Of the packs dirty when a sync fails, the next successful sync still covers the active one and those already
      reached; it never returns to the others. */
  lemma FailedSyncForgets(s: State, done: set<PackId>, p: PackId)
    requires Inv(s) && Enabled(s, SyncFails(done)) && p in s.mem.dirty
    ensures Enabled(Do(s, SyncFails(done)), Sync)
    ensures p in Do(Do(s, SyncFails(done)), Sync).mem.unsynced <==> p !in done && p != s.mem.active
  {
    SyncKeeps(s.disk, s.mem, done);
  }

  lemma Then(s: State, step: Step, rest: seq<Step>)
    requires Enabled(s, step) && CanRun(Do(s, step), rest)
    ensures CanRun(s, [step] + rest) && Run(s, [step] + rest) == Run(Do(s, step), rest)
  {
    assert ([step] + rest)[1..] == rest;
  }

  lemma {:induction false} RunOn(s: State, a: seq<Step>, b: seq<Step>)
    requires CanRun(s, a) && CanRun(Run(s, a), b)
    ensures CanRun(s, a + b) && Run(s, a + b) == Run(Run(s, a), b)
    decreases |a|
  {
    if a == [] {
      assert a + b == b;
    } else {
      var t, rest := Do(s, a[0]), a[1..];
      RunOn(t, rest, b);
      Then(s, a[0], rest + b);
      assert a + b == [a[0]] + (rest + b);
    }
  }

  /** A store just opened on an empty directory. */
  function Opened(): State {
    Up(Disk(map[0 := Pack([], 0, false)], map[], {}), Mem(map[], 0, Writing, 1, {}, {0}, {}, map[], {}, {}))
  }

  lemma HeadedOpens()
    ensures Enabled(Down(Opened().disk), Open(map[], 0, 1)) && Do(Down(Opened().disk), Open(map[], 0, 1)) == Opened()
  {
    var d := Opened().disk;
    assert forall p, h :: p in d.packs ==> !Contributes(d, p, h);
    assert forall h :: !Recoverable(d, h);
  }

  lemma EmptyOpens()
    ensures CanRun(Empty(), [CreateFirst(0), HeadFirst(0), Open(map[], 0, 1)])
    ensures Run(Empty(), [CreateFirst(0), HeadFirst(0), Open(map[], 0, 1)]) == Opened()
  {
    var open := Open(map[], 0, 1);
    var s1, s2 := Do(Empty(), CreateFirst(0)), Down(Opened().disk);
    assert {} + {0} - {0} == {};
    assert Do(s1, HeadFirst(0)) == s2;
    HeadedOpens();
    Then(s2, open, []);
    Then(s1, HeadFirst(0), [open]);
    Then(Empty(), CreateFirst(0), [HeadFirst(0), open]);
  }

  /** One page written and its pack rotated away. */
  function RotatedOnce(h: PageHash): State {
    Up(Disk(map[0 := Pack([h], 1, true), 1 := Pack([], 0, false)], map[0 := map[h := 0]], {}),
       Mem(map[h := Loc(0, 0)], 1, Writing, 2, {0}, {0, 1}, {}, map[], {}, {}))
  }

  lemma OpenedRotates(h: PageHash)
    ensures CanRun(Opened(), [Append(h), SealActive, WriteSidecar, CreateNext, HeadNext])
    ensures Run(Opened(), [Append(h), SealActive, WriteSidecar, CreateNext, HeadNext]) == RotatedOnce(h)
  {
    var a := Do(Opened(), Append(h));
    assert [] + [h] == [h];
    assert a.disk.packs == map[0 := Pack([h], 0, false)] && a.mem.index == map[h := Loc(0, 0)];
    var b := Do(a, SealActive);
    var c := Do(b, WriteSidecar);
    assert EntriesOf(b.mem.index, 0) == map[h := 0];
    var d := Do(c, CreateNext);
    assert Do(d, HeadNext) == RotatedOnce(h);
    Then(d, HeadNext, []);
    Then(c, CreateNext, [HeadNext]);
    Then(b, WriteSidecar, [CreateNext, HeadNext]);
    Then(a, SealActive, [WriteSidecar, CreateNext, HeadNext]);
    Then(Opened(), Append(h), [SealActive, WriteSidecar, CreateNext, HeadNext]);
  }

  /** A run from an empty directory gets there. */
  lemma RotatedIsReached(h: PageHash)
    ensures exists steps :: CanRun(Empty(), steps) && Run(Empty(), steps) == RotatedOnce(h)
    ensures Inv(RotatedOnce(h))
  {
    EmptyOpens();
    OpenedRotates(h);
    var a, b := [CreateFirst(0), HeadFirst(0), Open(map[], 0, 1)], [Append(h), SealActive, WriteSidecar, CreateNext, HeadNext];
    RunOn(Empty(), a, b);
    RunKeeps(Empty(), a + b);
  }

  lemma RotatedForgets(h: PageHash)
    ensures CanRun(RotatedOnce(h), [SyncFails({}), Sync])
    ensures var t := Run(RotatedOnce(h), [SyncFails({}), Sync]); t.Up? && 0 in t.mem.unsynced && t.mem.index == map[h := Loc(0, 0)]
  {
    var f := Do(RotatedOnce(h), SyncFails({}));
    Then(f, Sync, []);
    Then(RotatedOnce(h), SyncFails({}), [Sync]);
  }

  lemma RunOnTwice(s: State, a: seq<Step>, b: seq<Step>, c: seq<Step>)
    requires CanRun(s, a) && CanRun(Run(s, a), b) && CanRun(Run(Run(s, a), b), c)
    ensures CanRun(s, a + b + c) && Run(s, a + b + c) == Run(Run(Run(s, a), b), c)
  {
    RunOn(s, a, b);
    RunOn(s, a + b, c);
  }

  /** A run from an empty directory that ends in a successful sync and leaves the pack of an indexed page unsynced. */
  ghost predicate LosesAPack(h: PageHash, steps: seq<Step>) {
    && CanRun(Empty(), steps) && |steps| > 0 && steps[|steps| - 1].Sync?
    && var t := Run(Empty(), steps); t.Up? && 0 in t.mem.unsynced && t.mem.index == map[h := Loc(0, 0)]
  }

  /** Open an empty directory, write one page, rotate, fail to sync, sync: the pack of that page is still unsynced. */
  lemma FailedSyncLosesAPack(h: PageHash)
    ensures exists steps :: LosesAPack(h, steps)
  {
    EmptyOpens();
    OpenedRotates(h);
    RotatedForgets(h);
    var a, b := [CreateFirst(0), HeadFirst(0), Open(map[], 0, 1)], [Append(h), SealActive, WriteSidecar, CreateNext, HeadNext];
    RunOnTwice(Empty(), a, b, [SyncFails({}), Sync]);
    assert LosesAPack(h, a + b + [SyncFails({}), Sync]);
  }

  lemma {:induction false} CleanRunLosesNothing(s: State, steps: seq<Step>)
    requires s.Up? && CanRun(s, steps) && Lives(steps)
    requires forall i :: 0 <= i < |steps| ==> !steps[i].SyncFails?
    ensures Run(s, steps).Up? && Run(s, steps).mem.lost <= s.mem.lost
    decreases |steps|
  {
    if steps != [] {
      assert !steps[0].SyncFails? && !steps[0].Kill?;
      StepLosesOnlyByFailure(s, steps[0]);
      CleanRunLosesNothing(Do(s, steps[0]), steps[1..]);
    }
  }

  lemma StepLosesOnlyByFailure(s: State, step: Step)
    requires s.Up? && Enabled(s, step) && !step.Kill? && !step.SyncFails?
    ensures Do(s, step).Up? && Do(s, step).mem.lost <= s.mem.lost
  {
  }

  /** In a lifetime with no failed sync, a sync leaves unsynced only the collector's unpublished and doomed packs, however
      many rotations and deletions came before. */
  lemma SyncCoversLifetime(s: State, steps: seq<Step>, p: PackId)
    requires Inv(s) && s.Up? && s.mem.lost == {}
    requires CanRun(s, steps) && Lives(steps) && forall i :: 0 <= i < |steps| ==> !steps[i].SyncFails?
    requires Enabled(Run(s, steps), Sync)
    ensures var t := Do(Run(s, steps), Sync); p in t.mem.unsynced ==> p in t.mem.gc || p in t.mem.doomed
  {
    RunKeeps(s, steps);
    CleanRunLosesNothing(s, steps);
    SyncMakesDurable(Run(s, steps));
  }

  // ── Pack ids ───────────────────────────────────────────────────────────

  ghost predicate Lives(steps: seq<Step>) {
    forall i :: 0 <= i < |steps| ==> !steps[i].Kill?
  }

  lemma StepRaisesIds(s: State, step: Step)
    requires s.Up? && Enabled(s, step) && !step.Kill?
    ensures Do(s, step).Up? && s.mem.nextId <= Do(s, step).mem.nextId
    ensures step.CreateNext? || step.GcCreate? ==> Do(s, step).mem.nextId == s.mem.nextId + 1
  {
  }

  lemma {:induction false} RunRaisesIds(s: State, steps: seq<Step>)
    requires s.Up? && CanRun(s, steps) && Lives(steps)
    ensures Run(s, steps).Up? && s.mem.nextId <= Run(s, steps).mem.nextId
    decreases |steps|
  {
    if steps != [] {
      StepRaisesIds(s, steps[0]);
      RunRaisesIds(Do(s, steps[0]), steps[1..]);
    }
  }

  /** Two allocations in one process lifetime, by rotation or by the collector, never give the same id, and neither id
      names a file that exists. */
  lemma IdsNeverRepeat(s: State, first: Step, between: seq<Step>, second: Step)
    requires Inv(s) && s.Up? && Enabled(s, first) && (first.CreateNext? || first.GcCreate?)
    requires CanRun(Do(s, first), between) && Lives(between)
    requires second.CreateNext? || second.GcCreate?
    requires Enabled(Run(Do(s, first), between), second)
    ensures var t := Run(Do(s, first), between);
      && t.Up? && s.mem.nextId < t.mem.nextId
      && s.mem.nextId !in s.disk.packs && s.mem.nextId !in s.disk.runts
      && t.mem.nextId !in t.disk.packs && t.mem.nextId !in t.disk.runts
  {
    StepKeeps(s, first);
    StepRaisesIds(s, first);
    RunRaisesIds(Do(s, first), between);
    RunKeeps(Do(s, first), between);
  }
}
