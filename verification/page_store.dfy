/** The page store object: ingest, rotation, sync and the collector's surfaces, each as the steps of the store model. */
module PageStores {
  import opened Base
  import opened Index
  import opened StoreModel
  import StoreRuns
  import Recovery

  datatype StoreError = Full | Io

  datatype Outcome = Outcome(hash: PageHash, loc: Loc, newlyWritten: bool)

  /** Records in the packs with ids below `n`. */
  function Total(packs: map<PackId, Pack>, n: nat): nat {
    if n == 0 then 0 else Total(packs, n - 1) + (if n - 1 in packs then |packs[n - 1].records| else 0)
  }

  lemma {:induction false} TotalFrame(a: map<PackId, Pack>, b: map<PackId, Pack>, n: nat)
    requires forall p :: p < n ==> (p in a <==> p in b)
    requires forall p :: p < n && p in a && p in b ==> |a[p].records| == |b[p].records|
    ensures Total(a, n) == Total(b, n)
  {
    if n > 0 {
      TotalFrame(a, b, n - 1);
    }
  }

  lemma {:induction false} TotalGrown(packs: map<PackId, Pack>, n: nat, id: PackId, h: PageHash)
    requires id < n && id in packs
    ensures Total(packs[id := Grown(packs[id], h)], n) == Total(packs, n) + 1
  {
    var q := packs[id := Grown(packs[id], h)];
    if id == n - 1 {
      TotalFrame(packs, q, n - 1);
    } else {
      TotalGrown(packs, n - 1, id, h);
    }
  }

  lemma {:induction false} TotalWithEmpty(packs: map<PackId, Pack>, n: nat, id: PackId)
    requires id !in packs
    ensures Total(packs[id := Pack([], 0, false)], n) == Total(packs, n)
  {
    if n > 0 {
      TotalWithEmpty(packs, n - 1, id);
    }
  }

  /** The active pack sealed, with its sidecar from the index. */
  ghost function Finished(s: State): (t: State)
    requires s.Up? && s.mem.active in s.disk.packs
    ensures t.Up?
  {
    var a := ActiveSealed(s.disk, s.mem);
    SidecarStored(a.disk, a.mem)
  }

  /** The next pack created and headed. */
  ghost function Begun(s: State): (t: State)
    requires s.Up?
    ensures t.Up?
  {
    var c := NextCreated(s.disk, s.mem);
    NextHeaded(c.disk, c.mem, s.mem.nextId)
  }

  ghost function Rotated(s: State): State
    requires s.Up? && s.mem.active in s.disk.packs
  {
    Begun(Finished(s))
  }

  lemma FinishedKeeps(s: State)
    requires Inv(s) && s.Up? && s.mem.phase.Writing?
    ensures Inv(Finished(s)) && Finished(s).mem.phase.SidecarWritten?
  {
    SealKeeps(s.disk, s.mem);
    var a := ActiveSealed(s.disk, s.mem);
    SidecarKeeps(a.disk, a.mem);
  }

  lemma BegunKeeps(s: State)
    requires Inv(s) && s.Up? && s.mem.phase.SidecarWritten?
    ensures Inv(Begun(s))
  {
    CreateKeeps(s.disk, s.mem);
    var c := NextCreated(s.disk, s.mem);
    HeadKeeps(c.disk, c.mem);
  }

  /** What a rotation comes to: the old pack is sealed and whole, its sidecar lists the index entries that point into it, the
      next id names a new empty pack, and the old one is dirty. */
  ghost predicate IsRotated(s: State, t: State)
    requires s.Up? && t.Up? && s.mem.active in s.disk.packs
  {
    var a, id, recs := s.mem.active, s.mem.nextId, s.disk.packs[s.mem.active].records;
    && t.disk.packs == s.disk.packs[a := Pack(recs, |recs|, true)][id := Pack([], 0, false)]
    && t.disk.runts == s.disk.runts - {id} && t.disk.sidecars.Keys == s.disk.sidecars.Keys + {a}
    && (forall p :: p in s.disk.sidecars && p != a ==> t.disk.sidecars[p] == s.disk.sidecars[p])
    && (forall h :: h in t.disk.sidecars[a] <==> h in s.mem.index && s.mem.index[h].pack == a)
    && (forall h :: h in t.disk.sidecars[a] ==> t.disk.sidecars[a][h] == s.mem.index[h].slot)
    && t.mem == s.mem.(active := id, nextId := id + 1, phase := Writing, dirty := s.mem.dirty + {a},
                       unsynced := s.mem.unsynced + {a, id})
  }

  /** The store's rotation is the four steps of the store model. */
  lemma RotationIsFourSteps(s: State)
    requires Inv(s) && s.Up? && s.mem.phase.Writing?
    ensures StoreRuns.CanRun(s, [SealActive, WriteSidecar, CreateNext, HeadNext])
    ensures StoreRuns.Run(s, [SealActive, WriteSidecar, CreateNext, HeadNext]) == Rotated(s)
    ensures IsRotated(s, Rotated(s))
  {
    var a := Do(s, SealActive);
    var b := Do(a, WriteSidecar);
    var c := Do(b, CreateNext);
    StoreRuns.Then(c, HeadNext, []);
    StoreRuns.Then(b, CreateNext, [HeadNext]);
    StoreRuns.Then(a, WriteSidecar, [CreateNext, HeadNext]);
    StoreRuns.Then(s, SealActive, [WriteSidecar, CreateNext, HeadNext]);
    RotatedIsExact(s);
  }

  lemma RotatedIsExact(s: State)
    requires s.Up? && s.mem.active in s.disk.packs && s.mem.phase.Writing?
    ensures Rotated(s).Up? && IsRotated(s, Rotated(s))
  {
    var id := s.mem.nextId;
    assert s.disk.runts + {id} - {id} == s.disk.runts - {id};
    assert s.mem.unsynced + {s.mem.active} + {id} == s.mem.unsynced + {s.mem.active, id};
  }

  lemma RotatedTotal(s: State)
    requires Inv(s) && s.Up? && s.mem.phase.Writing?
    ensures Total(Rotated(s).disk.packs, Rotated(s).mem.nextId) == Total(s.disk.packs, s.mem.nextId)
    ensures Rotated(s).mem.index == s.mem.index
  {
    var id := s.mem.nextId;
    var closed := s.disk.packs[s.mem.active := Closing(s.disk.packs[s.mem.active])];
    TotalFrame(s.disk.packs, closed, id);
    TotalWithEmpty(closed, id + 1, id);
    assert id !in closed;
  }

  /** Append to the active pack; a write buffer of 4 MiB or more goes to the file. */
  ghost function Appended(d: Disk, m: Mem, h: PageHash): State
    requires m.active in d.packs
  {
    var t := Ingested(d, m, h);
    var p := t.disk.packs[m.active];
    if 4194304 <= 4133 * (|p.records| - p.flushed) then BufferFlushed(t.disk, t.mem, m.active) else t
  }

  /** What an append comes to: one record more at the end of the active pack, indexed there, all of the pack in its file if
      the write buffer has reached 4 MiB, and the pack dirty. */
  ghost predicate IsAppended(s: State, h: PageHash, t: State) {
    && s.Up? && t.Up? && s.mem.active in s.disk.packs && s.mem.active in t.disk.packs
    && var a, p := s.mem.active, s.disk.packs[s.mem.active];
       var n := |p.records|;
       && t.disk == s.disk.(packs := s.disk.packs[a := t.disk.packs[a]])
       && t.disk.packs[a].records == p.records + [h] && t.disk.packs[a].isSealed == p.isSealed
       && t.disk.packs[a].flushed == (if 4194304 <= 4133 * (n + 1 - p.flushed) then n + 1 else p.flushed)
       && t.mem == s.mem.(index := s.mem.index[h := Loc(a, n)], dirty := s.mem.dirty + {a}, unsynced := s.mem.unsynced + {a})
  }

  lemma AppendedIsExact(d: Disk, m: Mem, h: PageHash)
    requires m.active in d.packs
    ensures IsAppended(Up(d, m), h, Appended(d, m, h))
  {
    var p, t := d.packs[m.active], Appended(d, m, h);
    assert t.disk.packs == d.packs[m.active := t.disk.packs[m.active]];
  }

  lemma AppendedKeeps(d: Disk, m: Mem, h: PageHash)
    requires Inv(Up(d, m)) && m.phase.Writing? && h !in m.index
    ensures Inv(Appended(d, m, h))
  {
    AppendKeeps(d, m, h);
    var t := Ingested(d, m, h);
    FlushKeeps(t.disk, t.mem, m.active);
  }

  lemma AppendedTotal(d: Disk, m: Mem, h: PageHash)
    requires m.active in d.packs && m.active < m.nextId
    ensures Total(Appended(d, m, h).disk.packs, m.nextId) == Total(d.packs, m.nextId) + 1
  {
    TotalGrown(d.packs, m.nextId, m.active, h);
    var t := Ingested(d, m, h);
    TotalFrame(t.disk.packs, BufferFlushed(t.disk, t.mem, m.active).disk.packs, m.nextId);
  }

  ghost predicate FillsBuffer(p: Pack) { 4194304 <= 4133 * (|p.records| + 1 - p.flushed) }

  /** An append to the active pack is one step of the store model, or two if it fills the write buffer. */
  lemma AppendIsSteps(s: State, h: PageHash)
    requires s.Up? && s.mem.active in s.disk.packs && Enabled(s, Append(h))
    ensures var steps := if FillsBuffer(s.disk.packs[s.mem.active]) then [Append(h), Flush] else [Append(h)];
      StoreRuns.CanRun(s, steps) && StoreRuns.Run(s, steps) == Appended(s.disk, s.mem, h)
  {
    var t := Do(s, Append(h));
    if FillsBuffer(s.disk.packs[s.mem.active]) {
      StoreRuns.Then(t, Flush, []);
      StoreRuns.Then(s, Append(h), [Flush]);
    } else {
      StoreRuns.Then(s, Append(h), []);
    }
  }

  /** So is the collector's. */
  lemma GcAppendIsSteps(s: State, id: PackId, h: PageHash)
    requires s.Up? && id in s.disk.packs && Enabled(s, GcAppend(id, h))
    ensures var steps := if FillsBuffer(s.disk.packs[id]) then [GcAppend(id, h), GcFlush(id)] else [GcAppend(id, h)];
      StoreRuns.CanRun(s, steps) && StoreRuns.Run(s, steps) == Up(WithPack(s.disk, id, Buffered(s.disk.packs[id], h)), s.mem)
  {
    var t := Do(s, GcAppend(id, h));
    if FillsBuffer(s.disk.packs[id]) {
      StoreRuns.Then(t, GcFlush(id), []);
      StoreRuns.Then(s, GcAppend(id, h), [GcFlush(id)]);
    } else {
      StoreRuns.Then(s, GcAppend(id, h), []);
    }
  }

  /** One record more; a write buffer of 4 MiB or more goes to the file. */
  function Buffered(p: Pack, h: PageHash): Pack {
    var q := Grown(p, h);
    if 4194304 <= 4133 * (|q.records| - q.flushed) then Flushed(q) else q
  }

  lemma BufferedKeeps(d: Disk, m: Mem, id: PackId, h: PageHash)
    requires Inv(Up(d, m)) && id in d.packs && !d.packs[id].isSealed
    ensures Inv(Up(WithPack(d, id, Buffered(d.packs[id], h)), m))
  {
    var q := Buffered(d.packs[id], h);
    ExtendKeepsDisk(d, id, q);
    ExtendKeepsIndex(d, m, id, q);
    ExtendKeepsRoles(d, m, id, q);
  }

  /** The state after rotating away a full pack. */
  ghost function MadeRoom(s: State, full: bool): State
    requires s.Up? && s.mem.active in s.disk.packs
  {
    if full then Rotated(s) else s
  }

  /** A page written: at the end of the active pack, which is a new one if the old one was full. */
  ghost predicate IsWritten(s: State, full: bool, h: PageHash, t: State) {
    && s.Up? && s.mem.active in s.disk.packs
    && var r := MadeRoom(s, full);
       r.Up? && r.mem.active in r.disk.packs && t == Appended(r.disk, r.mem, h)
  }

  /** A collector pack with a fresh id, empty and filling; nothing else has changed. */
  ghost predicate IsGcCreated(s: State, t: State) {
    && s.Up? && t.Up?
    && var id := s.mem.nextId;
       && id !in s.disk.packs && id !in s.disk.runts
       && t.disk == s.disk.(packs := s.disk.packs[id := Pack([], 0, false)])
       && t.mem == s.mem.(gc := s.mem.gc[id := Filling], nextId := id + 1, unsynced := s.mem.unsynced + {id})
  }

  ghost function GcBegun(d: Disk, m: Mem): State {
    var a := GcCreated(d, m);
    GcHeaded(a.disk, a.mem, m.nextId)
  }

  lemma GcBegunIsExact(d: Disk, m: Mem)
    requires Inv(Up(d, m))
    ensures Inv(GcBegun(d, m)) && IsGcCreated(Up(d, m), GcBegun(d, m))
  {
    GcCreateKeeps(d, m);
    var a := GcCreated(d, m);
    GcHeadKeeps(a.disk, a.mem, m.nextId);
    NextIsFree(d, m);
    GcBegunChanges(d, m);
  }

  lemma NextIsFree(d: Disk, m: Mem)
    requires Inv(Up(d, m))
    ensures m.nextId !in d.packs && m.nextId !in d.runts
  {
  }

  lemma GcBegunChanges(d: Disk, m: Mem)
    requires m.nextId !in d.packs && m.nextId !in d.runts
    ensures IsGcCreated(Up(d, m), GcBegun(d, m))
  {
    assert d.runts + {m.nextId} - {m.nextId} == d.runts;
  }

  /** A collector pack sealed, with every record of it in its sidecar at its first slot; nothing else has changed. */
  ghost predicate IsPublished(s: State, id: PackId, t: State) {
    && s.Up? && t.Up? && id in s.disk.packs && id in t.disk.sidecars
    && var recs, listed := s.disk.packs[id].records, t.disk.sidecars[id];
       && t.disk == Disk(s.disk.packs[id := Pack(recs, |recs|, true)], s.disk.sidecars[id := listed], s.disk.runts)
       && (forall h :: h in listed <==> h in recs)
       && (forall h :: h in listed ==> listed[h] < |recs| && recs[listed[h]] == h && forall j :: 0 <= j < listed[h] ==> recs[j] != h)
       && t.mem == s.mem.(gc := s.mem.gc - {id}, published := s.mem.published + {id}, unsynced := s.mem.unsynced - {id})
  }

  ghost function GcEnded(d: Disk, m: Mem, id: PackId): State
    requires id in d.packs
  {
    var a := GcSealed(d, m, id);
    GcPublished(a.disk, a.mem, id)
  }

  lemma GcEndedIsExact(d: Disk, m: Mem, id: PackId)
    requires Inv(Up(d, m)) && id in m.gc && m.gc[id].Filling?
    ensures id in d.packs && Inv(GcEnded(d, m, id)) && IsPublished(Up(d, m), id, GcEnded(d, m, id))
  {
    GcSealKeeps(d, m, id);
    var a := GcSealed(d, m, id);
    GcPublishKeeps(a.disk, a.mem, id);
    GcEndedChanges(d, m, id);
  }

  lemma GcEndedChanges(d: Disk, m: Mem, id: PackId)
    requires id in d.packs
    ensures IsPublished(Up(d, m), id, GcEnded(d, m, id))
  {
    assert m.gc[id := Closed] - {id} == m.gc - {id};
  }

  /** The pack out of the dirty set, its sidecar unlinked, the pack unlinked. */
  lemma DeletionKeeps(d: Disk, m: Mem, id: PackId)
    requires Inv(Up(d, m)) && Enabled(Up(d, m), Doom(id))
    ensures var a := Doomed(d, m, id); var b := IdxUnlinked(a.disk, a.mem, id);
      Inv(a) && Inv(b) && Inv(SpkUnlinked(b.disk, b.mem, id)) && m.doomed + {id} - {id} == m.doomed
  {
    DoomKeeps(d, m, id);
    var a := Doomed(d, m, id);
    UnlinkIdxKeeps(a.disk, a.mem, id);
    var b := IdxUnlinked(a.disk, a.mem, id);
    UnlinkSpkKeeps(b.disk, b.mem, id);
  }

  type Outcomes = seq<Option<Outcome>>
  type Entries = map<PageHash, Loc>

  ghost function HashesOf(hs: seq<PageHash>): set<PageHash> { set h | h in hs }

  ghost predicate FirstAt(hs: seq<PageHash>, i: nat) {
    i < |hs| && forall j :: 0 <= j < i ==> hs[j] != hs[i]
  }

  /** Old entries are untouched. */
  ghost predicate Grew(base: Entries, index: Entries) {
    forall h :: h in base ==> h in index && index[h] == base[h]
  }

  /** A true outcome for position `i`: the page is where it says, and it is newly written exactly at the first occurrence
      of a hash the index did not have. */
  ghost predicate Reported(base: Entries, index: Entries, hs: seq<PageHash>, i: nat, o: Outcome) {
    && i < |hs| && o.hash == hs[i] && hs[i] in index && o.loc == index[hs[i]]
    && (o.newlyWritten <==> hs[i] !in base && FirstAt(hs, i))
  }

  ghost predicate AllReported(base: Entries, index: Entries, hs: seq<PageHash>, outs: Outcomes) {
    |outs| == |hs| && forall i :: 0 <= i < |hs| && outs[i].Some? ==> Reported(base, index, hs, i, outs[i].value)
  }

  /** The first position of each distinct hash of a batch. */
  ghost predicate IsFirsts(hs: seq<PageHash>, firsts: map<PageHash, nat>) {
    && (forall h :: h in hs <==> h in firsts)
    && (forall h :: h in firsts ==> firsts[h] < |hs| && hs[firsts[h]] == h && FirstAt(hs, firsts[h]))
  }

  method Firsts(hs: seq<PageHash>) returns (firsts: map<PageHash, nat>)
    ensures IsFirsts(hs, firsts)
  {
    firsts := map[];
    for i := 0 to |hs|
      invariant forall h :: h in hs[..i] <==> h in firsts
      invariant forall h :: h in firsts ==> firsts[h] < i && hs[firsts[h]] == h && FirstAt(hs, firsts[h])
    {
      assert hs[..i + 1] == hs[..i] + [hs[i]];
      if hs[i] !in firsts {
        assert forall j :: 0 <= j < i ==> hs[j] in hs[..i];
        firsts := firsts[hs[i] := i];
      }
    }
    assert hs[..|hs|] == hs;
  }

  /** Look the distinct hashes up, in any order: hits are reported, misses collected. */
  method ProbeAll(hs: seq<PageHash>, firsts: map<PageHash, nat>, index: Entries) returns (outs: Outcomes, misses: set<PageHash>)
    requires IsFirsts(hs, firsts)
    ensures Wrote(index, index, hs, firsts, misses, outs)
  {
    outs := seq(|hs|, _ => None);
    misses := {};
    var todo := firsts.Keys;
    while todo != {}
      invariant todo <= firsts.Keys
      invariant AllReported(index, index, hs, outs)
      invariant forall h :: h in misses <==> h in firsts && h !in todo && h !in index
      invariant forall h :: h in firsts && h !in todo && h in index ==> outs[firsts[h]].Some?
      decreases |todo|
    {
      var h :| h in todo;
      if h in index {
        outs := outs[firsts[h] := Some(Outcome(h, index[h], false))];
      } else {
        misses := misses + {h};
      }
      todo := todo - {h};
    }
  }

  /** Half-way through writing a batch: hashes in `todo` are misses still to write, the others are indexed and reported. */
  ghost predicate Wrote(base: Entries, index: Entries, hs: seq<PageHash>, firsts: map<PageHash, nat>, todo: set<PageHash>,
                        outs: Outcomes) {
    && IsFirsts(hs, firsts) && todo <= firsts.Keys
    && Grew(base, index) && index.Keys <= base.Keys + firsts.Keys
    && (forall h :: h in todo ==> h !in index)
    && AllReported(base, index, hs, outs)
    && (forall h :: h in firsts && h !in todo ==> h in index && outs[firsts[h]].Some?)
  }

  lemma WroteAll(base: Entries, index: Entries, hs: seq<PageHash>, firsts: map<PageHash, nat>, outs: Outcomes)
    requires Wrote(base, index, hs, firsts, {}, outs)
    ensures index.Keys == base.Keys + HashesOf(hs)
  {
    assert firsts.Keys == HashesOf(hs);
    assert base.Keys <= index.Keys && firsts.Keys <= index.Keys;
  }

  lemma WroteOne(base: Entries, a: Entries, b: Entries, hs: seq<PageHash>, firsts: map<PageHash, nat>, todo: set<PageHash>,
                 h: PageHash, outs: Outcomes, o: Outcome)
    requires Wrote(base, a, hs, firsts, todo, outs) && h in todo
    requires h in b && b == a[h := b[h]] && o == Outcome(h, b[h], true)
    ensures Wrote(base, b, hs, firsts, todo - {h}, outs[firsts[h] := Some(o)])
  {
    StillReported(base, a, b, hs, outs);
    assert Reported(base, b, hs, firsts[h], o);
  }

  lemma StillReported(base: Entries, a: Entries, b: Entries, hs: seq<PageHash>, outs: Outcomes)
    requires AllReported(base, a, hs, outs) && Grew(a, b)
    ensures AllReported(base, b, hs, outs)
  {
    forall i | 0 <= i < |hs| && outs[i].Some?
      ensures Reported(base, b, hs, i, outs[i].value)
    {
      assert Reported(base, a, hs, i, outs[i].value);
    }
  }

  /** Positions still empty repeat an earlier hash of the batch, so they are dedup hits. */
  method FillRepeats(hs: seq<PageHash>, firsts: map<PageHash, nat>, ghost base: Entries, index: Entries, outs: Outcomes)
    returns (r: seq<Outcome>)
    requires Wrote(base, index, hs, firsts, {}, outs)
    ensures |r| == |hs| && forall i :: 0 <= i < |hs| ==> Reported(base, index, hs, i, r[i])
  {
    r := [];
    for i := 0 to |hs|
      invariant |r| == i && forall j :: 0 <= j < i ==> Reported(base, index, hs, j, r[j])
    {
      RepeatIsHit(base, index, hs, firsts, outs, i);
      r := r + [if outs[i].None? then Outcome(hs[i], index[hs[i]], false) else outs[i].value];
    }
  }

  lemma RepeatIsHit(base: Entries, index: Entries, hs: seq<PageHash>, firsts: map<PageHash, nat>, outs: Outcomes, i: nat)
    requires Wrote(base, index, hs, firsts, {}, outs) && i < |hs|
    ensures hs[i] in index
    ensures outs[i].None? ==> Reported(base, index, hs, i, Outcome(hs[i], index[hs[i]], false))
    ensures outs[i].Some? ==> Reported(base, index, hs, i, outs[i].value)
  {
    assert hs[i] in hs && hs[i] in firsts;
    assert FirstAt(hs, firsts[hs[i]]);
  }

  /** Open and fdatasync each pack in turn, in any order, up to the first failure. */
  method SyncEach(all: set<PackId>, linked: set<PackId>, good: set<PackId>) returns (done: set<PackId>, ok: bool)
    requires all <= linked
    ensures done <= good && done <= all
    ensures ok <==> all <= good
    ensures ok <==> done == all
  {
    var todo := all;
    done, ok := {}, true;
    while todo != {} && ok
      invariant todo + done == all && todo !! done && done <= good
      invariant !ok ==> !(todo <= good)
      decreases |todo|, ok
    {
      var p :| p in todo;
      if p !in linked || p !in good {
        ok := false;
      } else {
        todo, done := todo - {p}, done + {p};
      }
    }
  }

  class PageStore {
    const maxPackBytes: nat

    /** The directory. */
    var dir: Disk

    /** The index and the state under the active lock. */
    var mem: Mem

    /** The size the active pack may reach. */
    var cap: nat

    ghost function Now(): State
      reads this
    {
      Up(dir, mem)
    }

    /** Between calls nobody is half-way through a rotation. */
    ghost predicate Valid()
      reads this
    {
      Inv(Now()) && mem.phase.Writing?
    }

    /** Open a store on whatever a kill left of it: the index names exactly the pages the disk still held. */
    constructor Open(d: Disk, ids: seq<PackId>, maxBytes: nat)
      requires DiskInv(d) && Recovery.Ascending(ids) && forall p :: p in ids <==> p in d.packs || p in d.runts
      ensures Valid() && maxPackBytes == maxBytes && Recovery.SamePages(d, dir)
      ensures forall h :: h in mem.index <==> Recoverable(d, h)
      ensures Recovery.FirstWins(d, mem.active, mem.index)
      ensures forall p: PackId :: Recovery.Unsealed(d, p) ==> p <= mem.active
      ensures cap == if mem.active in d.packs then Recovery.DEFAULT_CAP else maxBytes
    {
      var e, index, active, nextId, c := Recovery.Recover(d, ids, maxBytes);
      StoreRuns.OpenKeeps(e, index, active, nextId);
      maxPackBytes, cap := maxBytes, c;
      dir, mem := e, Mem(index, active, Writing, nextId, {}, {active}, {}, map[], {}, {});
    }

    // ── Rotation ─────────────────────────────────────────────────────────

    /** Footer, then the sidecar from the index. */
    method SealActivePack()
      requires Valid()
      modifies this`dir, this`mem
      ensures Now() == Finished(old(Now())) && Inv(Now())
    {
      FinishedKeeps(Now());
      var id := mem.active;
      dir := WithPack(dir, id, Closing(dir.packs[id]));
      mem := mem.(phase := FooterWritten, dirty := mem.dirty + {id}, unsynced := mem.unsynced + {id});
      dir := dir.(sidecars := dir.sidecars[id := EntriesOf(mem.index, id)]);
      mem := mem.(phase := SidecarWritten);
    }

    /** File, then its header. */
    method StartNextPack() returns (id: PackId)
      requires Inv(Now()) && mem.phase.SidecarWritten?
      modifies this
      ensures Now() == Begun(old(Now())) && Valid()
      ensures cap == maxPackBytes
      ensures id == mem.active == old(mem.nextId) && mem.nextId == id + 1 && dir.packs[id].records == []
    {
      BegunKeeps(Now());
      id := mem.nextId;
      dir := dir.(runts := dir.runts + {id});
      mem := mem.(phase := Opening(id), nextId := id + 1);
      dir := Headed(dir, id);
      mem := mem.(phase := Writing, active := id, unsynced := mem.unsynced + {id});
      cap := maxPackBytes;
    }

    /** The new active pack is empty and has the highest id of all. */
    method RotateLocked() returns (id: PackId)
      requires Valid()
      modifies this
      ensures Now() == Rotated(old(Now())) && Valid()
      ensures IsRotated(old(Now()), Now())
      ensures cap == maxPackBytes
      ensures id == mem.active == old(mem.nextId) && mem.nextId == id + 1 && dir.packs[id].records == []
    {
      RotatedIsExact(Now());
      SealActivePack();
      id := StartNextPack();
    }

    /** A fence: the active pack is empty and every other pack, the collector's included, has a lower id. */
    method RotateActive() returns (id: PackId)
      requires Valid()
      modifies this
      ensures Valid() && id == mem.active && dir.packs[id].records == []
      ensures forall p :: p in dir.packs || p in dir.runts ==> p <= id
      ensures Now() == if old(dir.packs[mem.active].records == [] && mem.active + 1 == mem.nextId) then old(Now())
                       else Rotated(old(Now()))
    {
      if dir.packs[mem.active].records == [] && mem.active + 1 == mem.nextId {
        return mem.active;
      }
      id := RotateLocked();
    }

    // ── Ingest ───────────────────────────────────────────────────────────

    /** Rotate if one more record would outgrow the cap. */
    method MakeRoom()
      requires Valid()
      modifies this
      ensures Valid() && mem.index == old(mem.index)
      ensures Now() == MadeRoom(old(Now()), old(cap < 20 + 4133 * (|dir.packs[mem.active].records| + 1)))
      ensures Total(dir.packs, mem.nextId) == old(Total(dir.packs, mem.nextId))
      ensures cap < 20 + 4133 * (|dir.packs[mem.active].records| + 1) <==>
        maxPackBytes < 4153 && old(cap < 20 + 4133 * (|dir.packs[mem.active].records| + 1))
    {
      if cap < 20 + 4133 * (|dir.packs[mem.active].records| + 1) {
        RotatedTotal(Now());
        var id := RotateLocked();
      }
    }

    /** One miss, under the lock: checked again, then appended, after a rotation if the pack would outgrow its cap. */
    method WriteMiss(h: PageHash) returns (r: Result<Outcome, StoreError>)
      requires Valid()
      modifies this
      ensures Valid()
      ensures r.Err? <==>
        && h !in old(mem.index) && maxPackBytes < 4153
        && old(cap < 20 + 4133 * (|dir.packs[mem.active].records| + 1))
      ensures r.Err? ==> mem.index == old(mem.index)
      ensures r.Ok? ==> h in mem.index && r.value == Outcome(h, mem.index[h], h !in old(mem.index))
      ensures r.Ok? ==> mem.index == old(mem.index)[h := mem.index[h]] && (h in old(mem.index) ==> Now() == old(Now()))
      ensures r.Ok? && h !in old(mem.index) ==>
        IsWritten(old(Now()), old(cap < 20 + 4133 * (|dir.packs[mem.active].records| + 1)), h, Now())
      ensures Total(dir.packs, mem.nextId) - old(Total(dir.packs, mem.nextId)) == |mem.index| - old(|mem.index|)
    {
      if h in mem.index {
        return Ok(Outcome(h, mem.index[h], false));
      }
      r := WriteNew(h);
    }

    method WriteNew(h: PageHash) returns (r: Result<Outcome, StoreError>)
      requires Valid() && h !in mem.index
      modifies this
      ensures Valid()
      ensures r.Err? <==> maxPackBytes < 4153 && old(cap < 20 + 4133 * (|dir.packs[mem.active].records| + 1))
      ensures r.Err? ==> mem.index == old(mem.index) && Total(dir.packs, mem.nextId) == old(Total(dir.packs, mem.nextId))
      ensures r.Ok? ==> IsWritten(old(Now()), old(cap < 20 + 4133 * (|dir.packs[mem.active].records| + 1)), h, Now())
      ensures r.Ok? ==> h in mem.index && r.value == Outcome(h, mem.index[h], true)
      ensures r.Ok? ==> mem.index == old(mem.index)[h := mem.index[h]]
      ensures r.Ok? ==> Total(dir.packs, mem.nextId) == old(Total(dir.packs, mem.nextId)) + 1
    {
      MakeRoom();
      r := Append(h);
    }

    method WriteOne(h: PageHash, hs: seq<PageHash>, firsts: map<PageHash, nat>, todo: set<PageHash>, outs: Outcomes,
                    ghost base: Entries)
      returns (r: Result<Outcomes, StoreError>)
      requires Valid() && h in todo && Wrote(base, mem.index, hs, firsts, todo, outs)
      modifies this
      ensures Valid() && Grew(base, mem.index) && mem.index.Keys <= base.Keys + firsts.Keys
      ensures Total(dir.packs, mem.nextId) - old(Total(dir.packs, mem.nextId)) == |mem.index| - old(|mem.index|)
      ensures r.Err? ==> maxPackBytes < 4153
      ensures r.Ok? ==> Wrote(base, mem.index, hs, firsts, todo - {h}, r.value)
    {
      ghost var before := mem.index;
      var o := WriteMiss(h);
      if o.Err? {
        return Err(o.error);
      }
      WroteOne(base, before, mem.index, hs, firsts, todo, h, outs, o.value);
      r := Ok(outs[firsts[h] := Some(o.value)]);
    }

    /** Write the misses of a batch, in any order. */
    method WriteMisses(hs: seq<PageHash>, firsts: map<PageHash, nat>, misses: set<PageHash>, outs: Outcomes,
                       ghost base: Entries)
      returns (r: Result<Outcomes, StoreError>)
      requires Valid() && Wrote(base, mem.index, hs, firsts, misses, outs)
      modifies this
      ensures Valid() && Grew(base, mem.index) && mem.index.Keys <= base.Keys + firsts.Keys
      ensures Total(dir.packs, mem.nextId) - old(Total(dir.packs, mem.nextId)) == |mem.index| - old(|mem.index|)
      ensures r.Err? ==> maxPackBytes < 4153
      ensures r.Ok? ==> Wrote(base, mem.index, hs, firsts, {}, r.value)
    {
      var cur := outs;
      var todo := misses;
      while todo != {}
        invariant Valid() && Wrote(base, mem.index, hs, firsts, todo, cur)
        invariant Total(dir.packs, mem.nextId) - old(Total(dir.packs, mem.nextId)) == |mem.index| - old(|mem.index|)
        decreases |todo|
      {
        var h :| h in todo;
        var next := WriteOne(h, hs, firsts, todo, cur, base);
        if next.Err? {
          return Err(next.error);
        }
        cur := next.value;
        todo := todo - {h};
      }
      r := Ok(cur);
    }

    /** One outcome per page, in order. Exactly the distinct hashes the index lacked are appended, each once, and each is
        reported newly written at its first position; nothing else in the index changes. */
    method Ingest(hs: seq<PageHash>) returns (r: Result<seq<Outcome>, StoreError>)
      requires Valid()
      modifies this
      ensures Valid() && Grew(old(mem.index), mem.index)
      ensures Total(dir.packs, mem.nextId) - old(Total(dir.packs, mem.nextId)) == |mem.index| - old(|mem.index|)
      ensures r.Err? ==> maxPackBytes < 4153
      ensures r.Ok? ==> |r.value| == |hs| && mem.index.Keys == old(mem.index.Keys) + HashesOf(hs)
      ensures r.Ok? ==> forall i :: 0 <= i < |hs| ==> Reported(old(mem.index), mem.index, hs, i, r.value[i])
    {
      ghost var base := mem.index;
      var firsts := Firsts(hs);
      var outs, misses := ProbeAll(hs, firsts, mem.index);
      var w := WriteMisses(hs, firsts, misses, outs, base);
      if w.Err? {
        return Err(w.error);
      }
      WroteAll(base, mem.index, hs, firsts, w.value);
      var out := FillRepeats(hs, firsts, base, mem.index, w.value);
      r := Ok(out);
    }

    /** One record into the active pack and its entry into the index, or full and nothing changed. */
    method Append(h: PageHash) returns (r: Result<Outcome, StoreError>)
      requires Valid() && h !in mem.index
      modifies this
      ensures Valid()
      ensures r.Err? <==> old(cap < 20 + 4133 * (|dir.packs[mem.active].records| + 1))
      ensures r.Err? ==> Now() == old(Now())
      ensures r.Ok? ==> Now() == Appended(old(dir), old(mem), h) && r.value == Outcome(h, mem.index[h], true)
      ensures r.Ok? ==> IsAppended(old(Now()), h, Now())
      ensures r.Ok? ==> Total(dir.packs, mem.nextId) == old(Total(dir.packs, mem.nextId)) + 1
      ensures cap == old(cap)
    {
      var p := dir.packs[mem.active];
      if cap < 20 + 4133 * (|p.records| + 1) {
        return Err(Full);
      }
      AppendedKeeps(dir, mem, h);
      AppendedTotal(dir, mem, h);
      AppendedIsExact(dir, mem, h);
      var loc := Loc(mem.active, |p.records|);
      dir := WithPack(dir, mem.active, Grown(p, h));
      mem := mem.(index := mem.index[h := loc], dirty := mem.dirty + {mem.active}, unsynced := mem.unsynced + {mem.active});
      if 4194304 <= 4133 * (|p.records| + 1 - p.flushed) {
        dir := WithPack(dir, mem.active, Flushed(dir.packs[mem.active]));
      }
      assert Now() == Appended(old(dir), old(mem), h);
      r := Ok(Outcome(h, loc, true));
    }

    // ── Sync ─────────────────────────────────────────────────────────────

    /** `good` are the packs whose fdatasync succeeds. Every file is found, so a sync fails only by fdatasync; it then keeps
        what it reached and forgets the rest of the dirty set. */
    method Sync(good: set<PackId>) returns (r: Result<(), StoreError>)
      requires Valid()
      modifies this
      ensures Valid()
      ensures r.Ok? <==> old(mem.dirty + {mem.active}) <= good
      ensures r.Ok? ==> Now() == Synced(old(dir), old(mem), old(mem.dirty + {mem.active}))
      ensures r.Err? ==>
        exists done :: done <= good && done < old(mem.dirty + {mem.active}) && Now() == Synced(old(dir), old(mem), done)
    {
      var done, ok := SyncEach(mem.dirty + {mem.active}, dir.packs.Keys, good);
      SyncKeeps(dir, mem, done);
      dir := WithPack(dir, mem.active, Flushed(dir.packs[mem.active]));
      mem := mem.(dirty := {}, unsynced := mem.unsynced - done, lost := mem.lost + (mem.dirty - done - {mem.active}));
      assert Now() == Synced(old(dir), old(mem), done);
      r := if ok then Ok(()) else Err(Io);
    }

    // ── The collector's surfaces ─────────────────────────────────────────

    /** The id is above every pack's, so it can never meet one a rotation hands out. */
    method CreateGcPack() returns (id: PackId)
      requires Valid()
      modifies this
      ensures Valid() && id == old(mem.nextId) && IsGcCreated(old(Now()), Now())
    {
      GcBegunIsExact(dir, mem);
      id := mem.nextId;
      dir := dir.(runts := dir.runts + {id});
      mem := mem.(gc := mem.gc[id := Creating], nextId := id + 1);
      dir := Headed(dir, id);
      mem := mem.(gc := mem.gc[id := Filling], unsynced := mem.unsynced + {id});
      assert Now() == GcBegun(old(dir), old(mem));
    }

    /** The record lands at the end of the collector's pack, at the slot returned, and nowhere else. */
    method GcAppend(id: PackId, h: PageHash) returns (r: Result<nat, StoreError>)
      requires Valid() && id in mem.gc && mem.gc[id].Filling?
      modifies this`dir
      ensures Valid() && (r.Err? <==> maxPackBytes < 20 + 4133 * (|old(dir.packs[id].records)| + 1))
      ensures r.Err? ==> dir == old(dir)
      ensures r.Ok? ==> dir == WithPack(old(dir), id, Buffered(old(dir.packs[id]), h))
      ensures r.Ok? ==>
        && dir.packs[id].records == old(dir.packs[id].records) + [h] && StoredAt(dir.packs, Loc(id, r.value), h)
        && r.value == |old(dir.packs[id].records)| && !dir.packs[id].isSealed
        && (dir.packs[id].flushed == if 4194304 <= 4133 * (|dir.packs[id].records| - old(dir.packs[id].flushed))
                                     then |dir.packs[id].records| else old(dir.packs[id].flushed))
    {
      var p := dir.packs[id];
      if maxPackBytes < 20 + 4133 * (|p.records| + 1) {
        return Err(Full);
      }
      BufferedKeeps(dir, mem, id, h);
      dir := WithPack(dir, id, Buffered(p, h));
      r := Ok(|p.records|);
    }

    /** The sidecar comes from the pack's own records, so it lists every one of them. */
    method SealAndPublish(id: PackId)
      requires Valid() && id in mem.gc && mem.gc[id].Filling?
      modifies this
      ensures Valid() && IsPublished(old(Now()), id, Now())
    {
      GcEndedIsExact(dir, mem, id);
      dir := WithPack(dir, id, Closing(dir.packs[id]));
      mem := mem.(gc := mem.gc[id := Closed], unsynced := mem.unsynced - {id});
      dir := Listed(dir, id);
      mem := mem.(gc := mem.gc - {id}, published := mem.published + {id});
      assert Now() == GcEnded(old(dir), old(mem), id);
    }

    /** Move an entry to a published copy, unless it has left the expected pack meanwhile. */
    method RepointIfInPack(h: PageHash, expected: PackId, to: Loc) returns (moved: bool)
      requires Valid() && to.pack in mem.published && StoredAt(dir.packs, to, h)
      modifies this`mem
      ensures Valid()
      ensures moved <==> h in old(mem.index) && old(mem.index)[h].pack == expected
      ensures mem == old(mem).(index := if moved then old(mem.index)[h := to] else old(mem.index))
    {
      moved := h in mem.index && mem.index[h].pack == expected;
      if moved {
        RepointKeeps(dir, mem, h, to);
        mem := mem.(index := mem.index[h := to]);
      }
    }

    method RemoveIfInPack(h: PageHash, expected: PackId) returns (removed: bool)
      requires Valid()
      modifies this`mem
      ensures Valid()
      ensures removed <==> h in old(mem.index) && old(mem.index)[h].pack == expected
      ensures mem == old(mem).(index := if removed then old(mem.index) - {h} else old(mem.index))
    {
      removed := h in mem.index && mem.index[h].pack == expected;
      if removed {
        RemoveKeeps(dir, mem, h);
        mem := mem.(index := mem.index - {h});
      }
    }

    /** Drop the pack from the dirty set, then unlink its sidecar, then the pack. */
    method DeletePack(id: PackId)
      requires Valid() && id != mem.active && id !in mem.gc && id !in mem.doomed
      requires forall h :: h in mem.index ==> mem.index[h].pack != id
      modifies this
      ensures Valid()
      ensures dir == Disk(old(dir.packs) - {id}, old(dir.sidecars) - {id}, old(dir.runts))
      ensures mem.index == old(mem.index) && mem.dirty == old(mem.dirty) - {id} && mem.nextId == old(mem.nextId)
      ensures id in old(dir.packs) ==>
        mem == old(mem).(dirty := mem.dirty, published := old(mem.published) - {id}, unsynced := old(mem.unsynced) - {id},
                         lost := old(mem.lost) - {id})
    {
      if id !in dir.packs {
        // both unlinks find nothing
        return;
      }
      DeletionKeeps(dir, mem, id);
      mem := mem.(dirty := mem.dirty - {id}, published := mem.published - {id}, doomed := mem.doomed + {id});
      dir := dir.(sidecars := dir.sidecars - {id});
      dir := dir.(packs := dir.packs - {id});
      mem := mem.(doomed := mem.doomed - {id}, unsynced := mem.unsynced - {id}, lost := mem.lost - {id});
    }
  }
}
