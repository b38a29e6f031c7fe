/** Every run of the store gives readers what they rely on. */
module Rely {
  import opened Base
  import opened Index
  import opened StoreModel
  import opened StoreRuns
  import opened Readers
  import opened PageStores

  /** From `s` to `t` packs only grow, seal or vanish; no pack or runt known to `s` changes back or returns; the active pack
      is left only once it is sealed. */
  ghost predicate Later(s: State, t: State)
    requires s.Up? && t.Up?
  {
    && s.mem.nextId <= t.mem.nextId
    && (forall p :: p in s.disk.packs && p in t.disk.packs ==> Extends(s.disk.packs[p], t.disk.packs[p]))
    && (forall p :: p < s.mem.nextId && p in t.disk.packs ==> p in s.disk.packs || p in s.disk.runts)
    && (forall p :: p < s.mem.nextId && p in t.disk.runts ==> p in s.disk.runts)
    && (s.mem.active in t.disk.packs && t.mem.active != s.mem.active ==> t.disk.packs[s.mem.active].isSealed)
  }

  lemma WriterStepIsLater(d: Disk, m: Mem, step: Step)
    requires Inv(Up(d, m)) && Enabled(Up(d, m), step) && WriterStep(step)
    ensures Later(Up(d, m), Do(Up(d, m), step))
  {
  }

  lemma CopyStepIsLater(d: Disk, m: Mem, step: Step)
    requires DiskInv(d) && RoleInv(d, m) && Enabled(Up(d, m), step)
    requires step.GcCreate? || step.GcHead? || step.GcAppend? || step.GcFlush? || step.GcSeal? || step.GcPublish?
    ensures Later(Up(d, m), Do(Up(d, m), step))
  {
  }

  lemma SweepStepIsLater(d: Disk, m: Mem, step: Step)
    requires DiskInv(d) && RoleInv(d, m) && Enabled(Up(d, m), step)
    requires step.Repoint? || step.Remove? || step.Doom? || step.UnlinkIdx? || step.UnlinkSpk?
    ensures Later(Up(d, m), Do(Up(d, m), step))
  {
  }

  lemma StepIsLater(d: Disk, m: Mem, step: Step)
    requires Inv(Up(d, m)) && Enabled(Up(d, m), step) && !step.Kill?
    ensures Later(Up(d, m), Do(Up(d, m), step))
  {
    if WriterStep(step) {
      WriterStepIsLater(d, m, step);
    } else if step.Repoint? || step.Remove? || step.Doom? || step.UnlinkIdx? || step.UnlinkSpk? {
      SweepStepIsLater(d, m, step);
    } else {
      CopyStepIsLater(d, m, step);
    }
  }

  lemma OnlyRepointMoves(d: Disk, m: Mem, step: Step, h: PageHash)
    requires Enabled(Up(d, m), step) && !step.Kill? && !(step.Repoint? && step.h == h)
    requires h in m.index && h in Do(Up(d, m), step).mem.index
    ensures Do(Up(d, m), step).mem.index[h] == m.index[h]
  {
  }

  // ── The reader's view ──────────────────────────────────────────────────

  ghost function SightOf(s: State, files: map<PackId, Pack>, bytes: map<Loc, Bytes>): Sight
    requires s.Up?
  {
    Sight(s.disk.packs.Keys, files, bytes, s.mem.index, s.mem.active)
  }

  /** `files` are the packs on disk and those unlinked earlier in this process. */
  ghost predicate Tracks(s: State, files: map<PackId, Pack>)
    requires s.Up?
  {
    && (forall p :: p in s.disk.packs ==> p in files && files[p] == s.disk.packs[p])
    && (forall p :: p in files && p !in s.disk.packs ==>
          p < s.mem.nextId && p !in s.disk.runts && files[p].isSealed && files[p].flushed == |files[p].records|)
  }

  lemma SightIsCoherent(s: State, files: map<PackId, Pack>, bytes: map<Loc, Bytes>)
    requires s.Up? && Inv(s) && Tracks(s, files)
    ensures Coherent(SightOf(s, files, bytes))
  {
    var v := SightOf(s, files, bytes);
    forall h | h in v.index
      ensures EntrySound(v, h)
    {
      assert StoredAt(s.disk.packs, s.mem.index[h], h);
    }
    forall p | p in v.files
      ensures FileSound(v, p)
    {
    }
  }

  lemma UnlinksOnlySealed(s: State, step: Step, p: PackId)
    requires Inv(s) && s.Up? && Enabled(s, step) && !step.Kill?
    requires p in s.disk.packs && Do(s, step).Up? && p !in Do(s, step).disk.packs
    ensures s.disk.packs[p].isSealed
  {
  }

  lemma StepProgress(s: State, step: Step, files: map<PackId, Pack>, bytes: map<Loc, Bytes>, more: map<Loc, Bytes>)
    requires Inv(s) && s.Up? && Enabled(s, step) && !step.Kill? && Tracks(s, files)
    ensures Do(s, step).Up? && Inv(Do(s, step)) && Tracks(Do(s, step), files + Do(s, step).disk.packs)
    ensures Progress(SightOf(s, files, bytes), SightOf(Do(s, step), files + Do(s, step).disk.packs, more))
  {
    StepKeeps(s, step);
    StepRaisesIds(s, step);
    StepIsLater(s.disk, s.mem, step);
    var t := Do(s, step);
    forall p | p in s.disk.packs && p !in t.disk.packs
      ensures s.disk.packs[p].isSealed
    {
      UnlinksOnlySealed(s, step, p);
    }
    TrackLater(s, t, files, bytes, more);
  }

  lemma TrackLater(s: State, t: State, files: map<PackId, Pack>, bytes: map<Loc, Bytes>, more: map<Loc, Bytes>)
    requires s.Up? && t.Up? && Inv(s) && Inv(t) && Later(s, t) && Tracks(s, files)
    requires forall p :: p in s.disk.packs && p !in t.disk.packs ==> s.disk.packs[p].isSealed
    ensures Tracks(t, files + t.disk.packs)
    ensures Progress(SightOf(s, files, bytes), SightOf(t, files + t.disk.packs, more))
  {
  }

  lemma StepStaysPut(s: State, step: Step, files: map<PackId, Pack>, bytes: map<Loc, Bytes>, more: map<Loc, Bytes>, h: PageHash)
    requires Inv(s) && s.Up? && Enabled(s, step) && !step.Kill? && Do(s, step).Up?
    requires h in s.mem.index && h in Do(s, step).mem.index
    ensures StaysPut(SightOf(s, files, bytes), SightOf(Do(s, step), files + Do(s, step).disk.packs, more), h)
  {
    if step.Repoint? && step.h == h {
      assert step.to.pack in s.mem.published;
    } else {
      OnlyRepointMoves(s.disk, s.mem, step, h);
    }
  }

  // ── Payloads ───────────────────────────────────────────────────────────

  /** Every record's payload hashes to the hash it is filed under. */
  ghost predicate Stocked(hash: Blake3, files: map<PackId, Pack>, bytes: map<Loc, Bytes>) {
    forall p, i :: p in files && 0 <= i < |files[p].records| ==>
      Loc(p, i) in bytes && hash(bytes[Loc(p, i)]) == files[p].records[i].bytes
  }

  ghost predicate Appends(step: Step) { step.Append? || step.GcAppend? }

  /** The slot an appending step fills. */
  ghost function FilledBy(s: State, step: Step): Loc
    requires s.Up? && Enabled(s, step) && Appends(step)
  {
    var id := if step.Append? then s.mem.active else step.id;
    Loc(id, |s.disk.packs[id].records|)
  }

  ghost function BytesWith(s: State, step: Step, page: Bytes, bytes: map<Loc, Bytes>): map<Loc, Bytes>
    requires s.Up? && Enabled(s, step)
  {
    if Appends(step) then bytes[FilledBy(s, step) := page] else bytes
  }

  /** A step leaves a pack's records alone, starts a pack empty, or adds its own hash in the slot it fills. */
  lemma RecordsGrow(s: State, step: Step, p: PackId)
    requires s.Up? && Enabled(s, step) && !step.Kill? && Do(s, step).Up? && p in Do(s, step).disk.packs
    ensures var after := Do(s, step).disk.packs[p].records;
      || (p in s.disk.packs && after == s.disk.packs[p].records && (Appends(step) ==> FilledBy(s, step).pack != p))
      || (after == [] && !Appends(step))
      || (p in s.disk.packs && Appends(step) && FilledBy(s, step).pack == p && after == s.disk.packs[p].records + [step.h])
  {
  }

  lemma StepStocks(hash: Blake3, s: State, step: Step, page: Bytes, files: map<PackId, Pack>, bytes: map<Loc, Bytes>)
    requires s.Up? && Enabled(s, step) && !step.Kill? && Do(s, step).Up? && Tracks(s, files) && Stocked(hash, files, bytes)
    requires Appends(step) ==> hash(page) == step.h.bytes
    ensures Stocked(hash, files + Do(s, step).disk.packs, BytesWith(s, step, page, bytes))
  {
    var t := Do(s, step);
    var g := files + t.disk.packs;
    var more := BytesWith(s, step, page, bytes);
    forall p, i | p in g && 0 <= i < |g[p].records|
      ensures Loc(p, i) in more && hash(more[Loc(p, i)]) == g[p].records[i].bytes
    {
      if p in t.disk.packs {
        RecordsGrow(s, step, p);
      }
    }
  }

  // ── Runs ───────────────────────────────────────────────────────────────

  /** `h` is in the index in every state of the run. */
  ghost predicate Throughout(s: State, steps: seq<Step>, h: PageHash)
    requires CanRun(s, steps)
    decreases |steps|
  {
    s.Up? && h in s.mem.index && (steps == [] || Throughout(Do(s, steps[0]), steps[1..], h))
  }

  ghost function FilesAfter(s: State, steps: seq<Step>, files: map<PackId, Pack>): map<PackId, Pack>
    requires CanRun(s, steps)
    decreases |steps|
  {
    if steps == [] then files
    else FilesAfter(Do(s, steps[0]), steps[1..], files + Do(s, steps[0]).disk.packs)
  }

  /** `pages[i]` is the payload step `i` writes, if it appends: a page of the hash it is appended under. */
  ghost predicate Genuine(hash: Blake3, steps: seq<Step>, pages: seq<Bytes>) {
    |pages| == |steps| && forall i :: 0 <= i < |steps| && Appends(steps[i]) ==> hash(pages[i]) == steps[i].h.bytes
  }

  ghost function BytesAfter(s: State, steps: seq<Step>, pages: seq<Bytes>, bytes: map<Loc, Bytes>): map<Loc, Bytes>
    requires s.Up? && CanRun(s, steps) && Lives(steps) && |pages| == |steps|
    decreases |steps|
  {
    if steps == [] then bytes
    else
      StepRaisesIds(s, steps[0]);
      BytesAfter(Do(s, steps[0]), steps[1..], pages[1..], BytesWith(s, steps[0], pages[0], bytes))
  }

  /** What the reader's object holds after the run. */
  ghost function SightAfter(s: State, steps: seq<Step>, pages: seq<Bytes>, files: map<PackId, Pack>, bytes: map<Loc, Bytes>): Sight
    requires s.Up? && CanRun(s, steps) && Lives(steps) && |pages| == |steps|
  {
    RunRaisesIds(s, steps);
    SightOf(Run(s, steps), FilesAfter(s, steps, files), BytesAfter(s, steps, pages, bytes))
  }

  /** Whatever other threads and the collector do short of a kill, a reader's view stays sound, payloads included, and makes
      progress, and a hash that stays indexed stays put. */
  lemma {:induction false} RunIsInterference(hash: Blake3, s: State, steps: seq<Step>, pages: seq<Bytes>,
                                             files: map<PackId, Pack>, bytes: map<Loc, Bytes>, kept: set<PageHash>)
    requires Inv(s) && s.Up? && CanRun(s, steps) && Lives(steps) && Tracks(s, files)
    requires Stocked(hash, files, bytes) && Genuine(hash, steps, pages)
    requires forall h :: h in kept ==> Throughout(s, steps, h)
    ensures Sound(hash, SightAfter(s, steps, pages, files, bytes))
    ensures Through(SightOf(s, files, bytes), SightAfter(s, steps, pages, files, bytes), kept)
    decreases |steps|
  {
    if steps == [] {
      SightIsCoherent(s, files, bytes);
      assert forall p :: p in files ==> FileSound(SightOf(s, files, bytes), p);
    } else {
      var t := Do(s, steps[0]);
      var g, more := files + t.disk.packs, BytesWith(s, steps[0], pages[0], bytes);
      FirstStep(hash, s, steps, pages[0], files, bytes, kept);
      RunIsInterference(hash, t, steps[1..], pages[1..], g, more, kept);
      AcrossSteps(SightOf(s, files, bytes), SightOf(t, g, more), SightAfter(s, steps, pages, files, bytes), kept);
    }
  }

  lemma FirstStep(hash: Blake3, s: State, steps: seq<Step>, page: Bytes, files: map<PackId, Pack>, bytes: map<Loc, Bytes>,
                  kept: set<PageHash>)
    requires Inv(s) && s.Up? && steps != [] && CanRun(s, steps) && Lives(steps) && Tracks(s, files)
    requires Stocked(hash, files, bytes) && (Appends(steps[0]) ==> hash(page) == steps[0].h.bytes)
    requires forall h :: h in kept ==> Throughout(s, steps, h)
    ensures var t := Do(s, steps[0]);
      && t.Up? && Inv(t) && Tracks(t, files + t.disk.packs)
      && var more := BytesWith(s, steps[0], page, bytes);
         && Stocked(hash, files + t.disk.packs, more)
         && Through(SightOf(s, files, bytes), SightOf(t, files + t.disk.packs, more), kept)
  {
    assert !steps[0].Kill?;
    StepRaisesIds(s, steps[0]);
    forall h | h in kept
      ensures h in s.mem.index && Do(s, steps[0]).Up? && h in Do(s, steps[0]).mem.index
    {
      ThroughoutNext(s, steps, h);
    }
    StepIsThrough(s, steps[0], files, bytes, BytesWith(s, steps[0], page, bytes), kept);
    StepStocks(hash, s, steps[0], page, files, bytes);
  }

  lemma StepIsThrough(s: State, step: Step, files: map<PackId, Pack>, bytes: map<Loc, Bytes>, more: map<Loc, Bytes>,
                      kept: set<PageHash>)
    requires Inv(s) && s.Up? && Enabled(s, step) && !step.Kill? && Tracks(s, files)
    requires forall h :: h in kept ==> h in s.mem.index && Do(s, step).Up? && h in Do(s, step).mem.index
    ensures Do(s, step).Up? && Inv(Do(s, step)) && Tracks(Do(s, step), files + Do(s, step).disk.packs)
    ensures Through(SightOf(s, files, bytes), SightOf(Do(s, step), files + Do(s, step).disk.packs, more), kept)
  {
    StepProgress(s, step, files, bytes, more);
    forall h | h in kept
      ensures StaysPut(SightOf(s, files, bytes), SightOf(Do(s, step), files + Do(s, step).disk.packs, more), h)
    {
      StepStaysPut(s, step, files, bytes, more, h);
    }
  }

  lemma ThroughoutNext(s: State, steps: seq<Step>, h: PageHash)
    requires steps != [] && CanRun(s, steps) && Throughout(s, steps, h)
    ensures s.Up? && h in s.mem.index && Do(s, steps[0]).Up? && h in Do(s, steps[0]).mem.index
  {
    assert Throughout(Do(s, steps[0]), steps[1..], h);
  }

  // ── Under the active lock ──────────────────────────────────────────────

  lemma CollectorSparesActive(s: State, step: Step)
    requires Inv(s) && s.Up? && Enabled(s, step) && !WriterStep(step) && !step.Kill?
    ensures Do(s, step).Up? && Do(s, step).mem.active == s.mem.active && s.mem.active in Do(s, step).disk.packs
    ensures Do(s, step).disk.packs[s.mem.active] == s.disk.packs[s.mem.active]
  {
  }

  /** While one thread holds the lock the others take no writer step, and the active pack stays as it is. */
  lemma {:induction false} LockedRunSparesActive(s: State, steps: seq<Step>)
    requires Inv(s) && s.Up? && CanRun(s, steps) && Lives(steps)
    requires forall i :: 0 <= i < |steps| ==> !WriterStep(steps[i])
    ensures Run(s, steps).Up? && Run(s, steps).mem.active == s.mem.active && s.mem.active in Run(s, steps).disk.packs
    ensures Run(s, steps).disk.packs[s.mem.active] == s.disk.packs[s.mem.active]
    decreases |steps|
  {
    if steps != [] {
      assert !WriterStep(steps[0]);
      CollectorSparesActive(s, steps[0]);
      StepKeeps(s, steps[0]);
      LockedRunSparesActive(Do(s, steps[0]), steps[1..]);
    }
  }

  // ── A page written again ───────────────────────────────────────────────

  /** A page removed and ingested again meanwhile is in the active pack. A handle can read it as soon as its entry is
      there if and only if the append filled the write buffer to 4 MiB and so flushed it. */
  lemma RewrittenPageIsReadable(d: Disk, m: Mem, h: PageHash)
    requires Inv(Up(d, m)) && m.phase.Writing? && h !in m.index
    ensures var t := Appended(d, m, h); var loc := t.mem.index[h]; var p := d.packs[m.active];
      && loc.pack == t.mem.active && StoredAt(t.disk.packs, loc, h)
      && (loc.slot < t.disk.packs[loc.pack].flushed <==> 4194304 <= 4133 * (|p.records| + 1 - p.flushed))
  {
    AppendedKeeps(d, m, h);
  }

  lemma {:induction false} RunTracks(s: State, steps: seq<Step>, files: map<PackId, Pack>)
    requires Inv(s) && s.Up? && CanRun(s, steps) && Lives(steps) && Tracks(s, files)
    ensures Run(s, steps).Up? && Tracks(Run(s, steps), FilesAfter(s, steps, files))
    decreases |steps|
  {
    if steps != [] {
      StepIsThrough(s, steps[0], files, map[], map[], {});
      RunTracks(Do(s, steps[0]), steps[1..], files + Do(s, steps[0]).disk.packs);
    }
  }

  /** The collector takes a page for dead and deletes its pack, and a client writes it again. */
  function Rewriting(h: PageHash): seq<Step> { [Remove(h, 0), Doom(0), UnlinkIdx(0)] + [UnlinkSpk(0), Append(h)] }

  function HalfUnlinked(h: PageHash): State {
    Up(Disk(map[0 := Pack([h], 1, true), 1 := Pack([], 0, false)], map[], {}),
       Mem(map[], 1, Writing, 2, {}, {0, 1}, {}, map[], {}, {0}))
  }

  lemma RotatedIsDoomed(h: PageHash)
    ensures CanRun(RotatedOnce(h), [Remove(h, 0), Doom(0), UnlinkIdx(0)])
    ensures Run(RotatedOnce(h), [Remove(h, 0), Doom(0), UnlinkIdx(0)]) == HalfUnlinked(h)
  {
    var s := RotatedOnce(h);
    var a := Do(s, Remove(h, 0));
    assert a.mem.index == map[];
    var b := Do(a, Doom(0));
    assert Do(b, UnlinkIdx(0)) == HalfUnlinked(h);
    Then(b, UnlinkIdx(0), []);
    Then(a, Doom(0), [UnlinkIdx(0)]);
    Then(s, Remove(h, 0), [Doom(0), UnlinkIdx(0)]);
  }

  ghost predicate Rewritten(t: State, h: PageHash) {
    t.Up? && t.disk.packs == map[1 := Pack([h], 0, false)] && t.mem.index == map[h := Loc(1, 0)] && t.mem.active == 1
  }

  lemma DoomedIsRewritten(h: PageHash)
    ensures CanRun(HalfUnlinked(h), [UnlinkSpk(0), Append(h)])
    ensures Rewritten(Run(HalfUnlinked(h), [UnlinkSpk(0), Append(h)]), h)
  {
    var d := Do(HalfUnlinked(h), UnlinkSpk(0));
    assert d.disk.packs == map[1 := Pack([], 0, false)];
    assert [] + [h] == [h];
    Then(d, Append(h), []);
    Then(HalfUnlinked(h), UnlinkSpk(0), [Append(h)]);
  }

  lemma RotatedRewrites(h: PageHash)
    ensures CanRun(RotatedOnce(h), Rewriting(h)) && Lives(Rewriting(h))
    ensures Rewritten(Run(RotatedOnce(h), Rewriting(h)), h)
  {
    RotatedIsDoomed(h);
    DoomedIsRewritten(h);
    RunOn(RotatedOnce(h), [Remove(h, 0), Doom(0), UnlinkIdx(0)], [UnlinkSpk(0), Append(h)]);
  }

  function Copies(page: Bytes, n: nat): seq<Bytes> { seq(n, _ => page) }

  /** What a reader sees after that, having looked `h` up before it. */
  ghost function RewrittenSight(h: PageHash, page: Bytes): Sight
    requires CanRun(RotatedOnce(h), Rewriting(h)) && Lives(Rewriting(h))
  {
    SightAfter(RotatedOnce(h), Rewriting(h), Copies(page, 5), RotatedOnce(h).disk.packs, map[Loc(0, 0) := page])
  }

  lemma RewritingIsGenuine(hash: Blake3, h: PageHash, page: Bytes)
    requires hash(page) == h.bytes
    ensures Genuine(hash, Rewriting(h), Copies(page, 5))
    ensures Stocked(hash, RotatedOnce(h).disk.packs, map[Loc(0, 0) := page])
    ensures Tracks(RotatedOnce(h), RotatedOnce(h).disk.packs)
  {
  }

  lemma RewritingIsInterference(hash: Blake3, h: PageHash, page: Bytes, s: State, steps: seq<Step>, bytes: map<Loc, Bytes>)
    requires hash(page) == h.bytes && s == RotatedOnce(h) && steps == Rewriting(h) && bytes == map[Loc(0, 0) := page]
    requires CanRun(s, steps) && Lives(steps)
    ensures Sound(hash, RewrittenSight(h, page)) && Through(SightOf(s, s.disk.packs, bytes), RewrittenSight(h, page), {})
  {
    RotatedIsReached(h);
    RewritingIsGenuine(hash, h, page);
    RunIsInterference(hash, s, steps, Copies(page, 5), s.disk.packs, bytes, {});
  }

  /** The failure of a batch read that is not one of an absent page. A reader looks `h` up in a store reached from an empty
      directory; the entry is removed, its pack unlinked, and the page written again, all within what a reader must
      expect. The index then gives a record that is cut off, and the batch fails although the page is stored. */
  lemma RetryCanBeCutOff(hash: Blake3, h: PageHash, page: Bytes)
    requires hash(page) == h.bytes
    ensures CanRun(RotatedOnce(h), Rewriting(h)) && Lives(Rewriting(h))
    ensures var u, v := SightOf(RotatedOnce(h), RotatedOnce(h).disk.packs, map[Loc(0, 0) := page]), RewrittenSight(h, page);
      && u.index == map[h := Loc(0, 0)] && v.index == map[h := Loc(1, 0)]
      && Sound(hash, v) && Through(u, v, {})
      && LostOne(u, v, h, 0) && CutOff(v, Loc(1, 0), h) && Failed(u, v, [h], {}, Truncated)
  {
    var s := RotatedOnce(h);
    RotatedRewrites(h);
    RewritingIsInterference(hash, h, page, s, Rewriting(h), map[Loc(0, 0) := page]);
    RotatedIsReached(h);
    RunTracks(s, Rewriting(h), s.disk.packs);
    var u, v := SightOf(s, s.disk.packs, map[Loc(0, 0) := page]), RewrittenSight(h, page);
    assert v.files[1] == Pack([h], 0, false);
    assert Extends(u.files[0], v.files[0]) && v.files[0].records[0] == h;
    assert [h][0] !in {} && LostOne(u, v, [h][0], 0) && CutOff(v, Loc(1, 0), [h][0]);
  }
}
