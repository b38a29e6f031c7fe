/** Any number of threads ingesting batches at once: a lock-free probe, then a locked re-check and append. */
module ConcurrentIngest {
  import opened Base
  import opened Index
  import opened StoreModel
  import opened PageStores

  type Tid = nat

  /** What ingest sees of the store. */
  datatype Shelf = Shelf(packs: map<PackId, Pack>, active: PackId, nextId: PackId, index: map<PageHash, Loc>)

  datatype Stage = Probing | Locked | Answering

  /** `todo` are the distinct hashes still to probe, `misses` those still to write. */
  datatype Thread = Thread(batch: seq<PageHash>, stage: Stage, todo: set<PageHash>, misses: set<PageHash>,
                           outs: map<nat, Outcome>)

  /** A page reported newly written: by thread `t`, at position `i` of its batch. */
  datatype Event = Event(t: Tid, i: nat, h: PageHash)

  datatype System = System(shelf: Shelf, holder: Option<Tid>, threads: map<Tid, Thread>, log: seq<Event>)

  datatype Step =
    | Start(t: Tid, batch: seq<PageHash>)
    | Probe(t: Tid, h: PageHash)
    | Acquire(t: Tid)
    | Rotate(t: Tid)
    // the collector's fence: it takes the lock, rotates and lets go
    | Fence
    | Write(t: Tid, h: PageHash)
    | Release(t: Tid)
    | NothingToWrite(t: Tid)
    | Fill(t: Tid, i: nat)

  function First(batch: seq<PageHash>, h: PageHash): (i: nat)
    requires h in batch
    ensures i < |batch| && batch[i] == h && forall j :: 0 <= j < i ==> batch[j] != h
  {
    if batch[0] == h then 0
    else
      var k := First(batch[1..], h);
      assert forall j :: 0 < j < k + 1 ==> batch[j] == batch[1..][j - 1];
      k + 1
  }

  // ── The two changes to the store ───────────────────────────────────────

  function Next(s: Shelf): Loc {
    Loc(s.active, if s.active in s.packs then |s.packs[s.active].records| else 0)
  }

  function Put(s: Shelf, h: PageHash): Shelf
    requires s.active in s.packs
  {
    s.(packs := s.packs[s.active := Grown(s.packs[s.active], h)], index := s.index[h := Next(s)])
  }

  function Turned(s: Shelf): Shelf
    requires s.active in s.packs
  {
    s.(packs := s.packs[s.active := Closing(s.packs[s.active])][s.nextId := Pack([], 0, false)],
       active := s.nextId, nextId := s.nextId + 1)
  }

  /** The active pack is empty and the last one allocated: a fence leaves it as it is. */
  predicate IsFresh(s: Shelf)
    requires s.active in s.packs
  {
    s.packs[s.active].records == [] && s.active + 1 == s.nextId
  }

  function ShelfOf(s: State): Shelf
    requires s.Up?
  {
    Shelf(s.disk.packs, s.mem.active, s.mem.nextId, s.mem.index)
  }

  /** These are what the store's own append and rotation do. */
  lemma StoreDoesThis(s: State, h: PageHash)
    requires Inv(s) && s.Up? && s.mem.phase.Writing?
    ensures ShelfOf(Ingested(s.disk, s.mem, h)) == Put(ShelfOf(s), h)
    ensures ShelfOf(Rotated(s)) == Turned(ShelfOf(s))
  {
  }

  // ── Steps ──────────────────────────────────────────────────────────────

  ghost predicate Enabled(s: System, step: Step) {
    match step
    case Start(t, batch) => t !in s.threads
    case Probe(t, h) => t in s.threads && s.threads[t].stage.Probing? && h in s.threads[t].todo && h in s.threads[t].batch
    case Acquire(t) =>
      t in s.threads && s.threads[t].stage.Probing? && s.threads[t].todo == {} && s.threads[t].misses != {} && s.holder.None?
    case Rotate(t) => s.holder == Some(t) && s.shelf.active in s.shelf.packs
    case Fence => s.holder.None? && s.shelf.active in s.shelf.packs
    case Write(t, h) =>
      && s.holder == Some(t) && t in s.threads && h in s.threads[t].misses && h in s.threads[t].batch
      && s.shelf.active in s.shelf.packs
    case Release(t) => s.holder == Some(t) && t in s.threads && s.threads[t].misses == {}
    case NothingToWrite(t) =>
      t in s.threads && s.threads[t].stage.Probing? && s.threads[t].todo == {} && s.threads[t].misses == {}
    case Fill(t, i) => t in s.threads && s.threads[t].stage.Answering? && i < |s.threads[t].batch| && i !in s.threads[t].outs
  }

  function With(s: System, t: Tid, th: Thread): System { s.(threads := s.threads[t := th]) }

  function Hit(th: Thread, i: nat, h: PageHash, loc: Loc): Thread {
    th.(todo := th.todo - {h}, misses := th.misses - {h}, outs := th.outs[i := Outcome(h, loc, false)])
  }

  function Missed(th: Thread, h: PageHash): Thread { th.(todo := th.todo - {h}, misses := th.misses + {h}) }

  function Stored(s: System, t: Tid, h: PageHash): System
    requires t in s.threads && h in s.threads[t].batch && s.shelf.active in s.shelf.packs
  {
    var th := s.threads[t];
    var i := First(th.batch, h);
    System(
      Put(s.shelf, h),
      s.holder,
      s.threads[t := th.(misses := th.misses - {h}, outs := th.outs[i := Outcome(h, Next(s.shelf), true)])],
      s.log + [Event(t, i, h)])
  }

  ghost function Do(s: System, step: Step): System
    requires Enabled(s, step)
  {
    match step
    case Start(t, batch) => With(s, t, Thread(batch, Probing, HashesOf(batch), {}, map[]))
    case Probe(t, h) =>
      var th := s.threads[t];
      With(s, t, if h in s.shelf.index then Hit(th, First(th.batch, h), h, s.shelf.index[h]) else Missed(th, h))
    case Acquire(t) => With(s, t, s.threads[t].(stage := Locked)).(holder := Some(t))
    case Rotate(t) => s.(shelf := Turned(s.shelf))
    case Fence => s.(shelf := if IsFresh(s.shelf) then s.shelf else Turned(s.shelf))
    case Write(t, h) =>
      var th := s.threads[t];
      if h in s.shelf.index then With(s, t, Hit(th, First(th.batch, h), h, s.shelf.index[h])) else Stored(s, t, h)
    case Release(t) => With(s, t, s.threads[t].(stage := Answering)).(holder := None)
    case NothingToWrite(t) => With(s, t, s.threads[t].(stage := Answering))
    case Fill(t, i) =>
      var th := s.threads[t];
      var h := th.batch[i];
      // the source unwraps this lookup
      if h in s.shelf.index then With(s, t, Hit(th, i, h, s.shelf.index[h])) else s
  }

  // ── Invariant ──────────────────────────────────────────────────────────

  ghost predicate ShelfInv(s: Shelf) {
    && s.active in s.packs
    && (forall p :: p in s.packs ==> p < s.nextId)
    && (forall h :: h in s.index ==> StoredAt(s.packs, s.index[h], h))
  }

  ghost predicate OutInv(index: Entries, th: Thread, i: nat)
    requires i in th.outs
  {
    && i < |th.batch| && th.outs[i].hash == th.batch[i]
    && th.batch[i] in index && th.outs[i].loc == index[th.batch[i]]
    && th.batch[i] !in th.todo && th.batch[i] !in th.misses
  }

  ghost predicate ThreadInv(index: Entries, th: Thread) {
    && (!th.stage.Probing? ==> th.todo == {})
    && (th.stage.Answering? ==> th.misses == {})
    && th.todo !! th.misses
    && (forall i :: i in th.outs ==> OutInv(index, th, i))
    && (forall h :: h in th.batch ==> h in th.todo || h in th.misses || First(th.batch, h) in th.outs)
    && (forall h :: h in th.todo || h in th.misses ==> h in th.batch)
  }

  ghost predicate Logged(log: seq<Event>, h: PageHash) {
    exists k :: 0 <= k < |log| && log[k].h == h
  }

  ghost predicate Recorded(threads: map<Tid, Thread>, e: Event) {
    && e.t in threads && e.i in threads[e.t].outs
    && threads[e.t].outs[e.i].newlyWritten && threads[e.t].outs[e.i].hash == e.h
  }

  /** The log holds each new hash once. */
  ghost predicate LogInv(base: Entries, index: Entries, log: seq<Event>) {
    && (forall k :: 0 <= k < |log| ==> log[k].h in index && log[k].h !in base)
    && (forall j, k :: 0 <= j < k < |log| ==> log[j].h != log[k].h)
    && (forall h :: h in index && h !in base ==> Logged(log, h))
  }

  /** The log and the newly written outcomes match one to one. */
  ghost predicate ReportInv(threads: map<Tid, Thread>, log: seq<Event>) {
    && (forall k :: 0 <= k < |log| ==> Recorded(threads, log[k]))
    && (forall t, i :: t in threads && i in threads[t].outs && threads[t].outs[i].newlyWritten ==>
          Event(t, i, threads[t].outs[i].hash) in log)
  }

  ghost predicate CountInv(base: Shelf, s: System) {
    && Total(s.shelf.packs, s.shelf.nextId) == Total(base.packs, base.nextId) + |s.log|
    && |s.shelf.index| == |base.index| + |s.log|
    && (forall h :: h in base.index ==> h in s.shelf.index && s.shelf.index[h] == base.index[h])
  }

  ghost predicate LockInv(s: System) {
    && (s.holder.Some? ==> s.holder.value in s.threads)
    && (forall t :: t in s.threads ==> (s.threads[t].stage.Locked? <==> s.holder == Some(t)))
  }

  ghost predicate ThreadsInv(s: System) {
    forall t :: t in s.threads ==> ThreadInv(s.shelf.index, s.threads[t])
  }

  ghost predicate SystemInv(base: Shelf, s: System) {
    && ShelfInv(s.shelf) && LockInv(s) && ThreadsInv(s)
    && LogInv(base.index, s.shelf.index, s.log) && ReportInv(s.threads, s.log) && CountInv(base, s)
  }

  // ── Every step keeps the invariant ─────────────────────────────────────

  /** The thread reports the same pages as newly written. */
  ghost predicate SameNew(threads: map<Tid, Thread>, t: Tid, th: Thread) {
    && (forall i :: i in th.outs && th.outs[i].newlyWritten ==>
          t in threads && i in threads[t].outs && threads[t].outs[i] == th.outs[i])
    && (t in threads ==> forall i :: i in threads[t].outs && threads[t].outs[i].newlyWritten ==>
          i in th.outs && threads[t].outs[i] == th.outs[i])
  }

  lemma SameReports(threads: map<Tid, Thread>, log: seq<Event>, t: Tid, th: Thread)
    requires ReportInv(threads, log) && SameNew(threads, t, th)
    ensures ReportInv(threads[t := th], log)
  {
    forall k | 0 <= k < |log|
      ensures Recorded(threads[t := th], log[k])
    {
      assert Recorded(threads, log[k]);
    }
  }

  /** One thread moves on without touching the store. */
  lemma ThreadMoves(base: Shelf, s: System, t: Tid, th: Thread, holder: Option<Tid>)
    requires SystemInv(base, s) && ThreadInv(s.shelf.index, th) && SameNew(s.threads, t, th)
    requires LockInv(With(s, t, th).(holder := holder))
    ensures SystemInv(base, With(s, t, th).(holder := holder))
  {
    SameReports(s.threads, s.log, t, th);
  }

  lemma LockKept(s: System, t: Tid, th: Thread)
    requires LockInv(s) && t in s.threads && th.stage == s.threads[t].stage
    ensures LockInv(With(s, t, th).(holder := s.holder))
  {
  }

  lemma LockTaken(s: System, t: Tid, th: Thread)
    requires LockInv(s) && t in s.threads && s.holder.None? && th.stage.Locked?
    ensures LockInv(With(s, t, th).(holder := Some(t)))
  {
  }

  lemma LockFreed(s: System, t: Tid, th: Thread)
    requires LockInv(s) && t in s.threads && s.holder == Some(t) && th.stage.Answering?
    ensures LockInv(With(s, t, th).(holder := None))
  {
  }

  lemma SameOuts(threads: map<Tid, Thread>, t: Tid, th: Thread)
    requires t in threads && th.outs == threads[t].outs
    ensures SameNew(threads, t, th)
  {
  }

  lemma HitIsFine(index: Entries, th: Thread, i: nat)
    requires ThreadInv(index, th) && i < |th.batch| && i !in th.outs && th.batch[i] in index
    requires i == First(th.batch, th.batch[i]) || th.stage.Answering?
    ensures ThreadInv(index, Hit(th, i, th.batch[i], index[th.batch[i]]))
  {
  }

  lemma NotYet(index: Entries, th: Thread, h: PageHash)
    requires ThreadInv(index, th) && (h in th.todo || h in th.misses)
    ensures First(th.batch, h) !in th.outs
  {
    assert forall i :: i in th.outs ==> OutInv(index, th, i);
  }

  lemma MissIsFine(index: Entries, th: Thread, h: PageHash)
    requires ThreadInv(index, th) && th.stage.Probing? && h in th.todo
    ensures ThreadInv(index, Missed(th, h))
  {
  }

  lemma TurnedTotal(s: Shelf)
    requires s.active in s.packs && s.active < s.nextId && s.nextId !in s.packs
    ensures Total(Turned(s).packs, Turned(s).nextId) == Total(s.packs, s.nextId)
  {
    var closed := s.packs[s.active := Closing(s.packs[s.active])];
    TotalFrame(s.packs, closed, s.nextId);
    TotalWithEmpty(closed, s.nextId + 1, s.nextId);
  }

  lemma TurnedIsFine(s: Shelf)
    requires ShelfInv(s)
    ensures ShelfInv(Turned(s))
  {
    forall h | h in s.index
      ensures StoredAt(Turned(s).packs, s.index[h], h)
    {
      assert StoredAt(s.packs, s.index[h], h);
    }
  }

  lemma RotateKeeps(base: Shelf, s: System)
    requires SystemInv(base, s)
    ensures SystemInv(base, s.(shelf := Turned(s.shelf)))
  {
    TurnedTotal(s.shelf);
    TurnedIsFine(s.shelf);
  }

  // A page written under the lock

  lemma PutKeepsCount(base: Shelf, s: System, t: Tid, h: PageHash)
    requires ShelfInv(s.shelf) && CountInv(base, s) && t in s.threads && h in s.threads[t].batch && h !in s.shelf.index
    ensures ShelfInv(Stored(s, t, h).shelf) && CountInv(base, Stored(s, t, h))
  {
    TotalGrown(s.shelf.packs, s.shelf.nextId, s.shelf.active, h);
  }

  lemma PutKeepsLog(base: Entries, index: Entries, log: seq<Event>, e: Event, loc: Loc)
    requires LogInv(base, index, log) && e.h !in index && forall h :: h in base ==> h in index
    ensures LogInv(base, index[e.h := loc], log + [e])
  {
    var more := log + [e];
    assert more[|log|] == e;
    forall h | h in index[e.h := loc] && h !in base
      ensures Logged(more, h)
    {
      if h != e.h {
        var k :| 0 <= k < |log| && log[k].h == h;
        assert more[k].h == h;
      }
    }
  }

  lemma PutKeepsReports(threads: map<Tid, Thread>, log: seq<Event>, e: Event, th: Thread, loc: Loc)
    requires ReportInv(threads, log) && e.t in threads && e.i !in threads[e.t].outs
    requires th.outs == threads[e.t].outs[e.i := Outcome(e.h, loc, true)]
    ensures ReportInv(threads[e.t := th], log + [e])
  {
    var more := log + [e];
    assert more[|log|] == e;
    forall k | 0 <= k < |more|
      ensures Recorded(threads[e.t := th], more[k])
    {
      assert k < |log| ==> Recorded(threads, log[k]);
    }
  }

  lemma IndexGrows(index: Entries, h: PageHash, loc: Loc, th: Thread)
    requires ThreadInv(index, th) && h !in index
    ensures ThreadInv(index[h := loc], th)
  {
    forall i | i in th.outs
      ensures OutInv(index[h := loc], th, i)
    {
      assert OutInv(index, th, i);
    }
  }

  lemma WriterIsFine(index: Entries, h: PageHash, loc: Loc, th: Thread)
    requires ThreadInv(index, th) && th.stage.Locked? && h in th.misses && h !in index
    ensures First(th.batch, h) !in th.outs
    ensures ThreadInv(index[h := loc],
                      th.(misses := th.misses - {h}, outs := th.outs[First(th.batch, h) := Outcome(h, loc, true)]))
  {
    IndexGrows(index, h, loc, th);
    assert forall i :: i in th.outs ==> OutInv(index, th, i);
  }

  lemma StoredThreads(s: System, t: Tid, h: PageHash)
    requires ShelfInv(s.shelf) && LockInv(s) && ThreadsInv(s) && s.holder == Some(t)
    requires h in s.threads[t].misses && h in s.threads[t].batch && h !in s.shelf.index
    ensures First(s.threads[t].batch, h) !in s.threads[t].outs
    ensures LockInv(Stored(s, t, h)) && ThreadsInv(Stored(s, t, h))
  {
    WriterIsFine(s.shelf.index, h, Next(s.shelf), s.threads[t]);
    forall u | u in s.threads
      ensures ThreadInv(Stored(s, t, h).shelf.index, s.threads[u])
    {
      IndexGrows(s.shelf.index, h, Next(s.shelf), s.threads[u]);
    }
  }

  lemma StoreKeeps(base: Shelf, s: System, t: Tid, h: PageHash)
    requires SystemInv(base, s) && s.holder == Some(t) && h in s.threads[t].misses && h !in s.shelf.index
    ensures SystemInv(base, Stored(s, t, h))
  {
    assert ThreadInv(s.shelf.index, s.threads[t]);
    var e := Event(t, First(s.threads[t].batch, h), h);
    PutKeepsCount(base, s, t, h);
    PutKeepsLog(base.index, s.shelf.index, s.log, e, Next(s.shelf));
    StoredThreads(s, t, h);
    PutKeepsReports(s.threads, s.log, e, Stored(s, t, h).threads[t], Next(s.shelf));
  }

  function Answered(s: System, t: Tid, i: nat): System
    requires t in s.threads && i < |s.threads[t].batch| && s.threads[t].batch[i] in s.shelf.index
  {
    var th := s.threads[t];
    With(s, t, Hit(th, i, th.batch[i], s.shelf.index[th.batch[i]]))
  }

  /** A dedup hit, found by the probe, by the re-check under the lock or at the end. */
  lemma HitKeeps(base: Shelf, s: System, t: Tid, i: nat)
    requires SystemInv(base, s) && t in s.threads && i < |s.threads[t].batch| && i !in s.threads[t].outs
    requires s.threads[t].batch[i] in s.shelf.index
    requires i == First(s.threads[t].batch, s.threads[t].batch[i]) || s.threads[t].stage.Answering?
    ensures SystemInv(base, Answered(s, t, i))
  {
    var th := s.threads[t];
    HitIsFine(s.shelf.index, th, i);
    var hit := Hit(th, i, th.batch[i], s.shelf.index[th.batch[i]]);
    HitSameNew(s.threads, t, i, hit);
    LockKept(s, t, hit);
    ThreadMoves(base, s, t, hit, s.holder);
  }

  lemma HitSameNew(threads: map<Tid, Thread>, t: Tid, i: nat, hit: Thread)
    requires t in threads && i !in threads[t].outs
    requires i in hit.outs && hit.outs == threads[t].outs[i := hit.outs[i]] && !hit.outs[i].newlyWritten
    ensures SameNew(threads, t, hit)
  {
  }

  lemma MissKeeps(base: Shelf, s: System, t: Tid, h: PageHash)
    requires SystemInv(base, s) && t in s.threads && s.threads[t].stage.Probing? && h in s.threads[t].todo
    ensures SystemInv(base, With(s, t, Missed(s.threads[t], h)))
  {
    MissIsFine(s.shelf.index, s.threads[t], h);
    SameOuts(s.threads, t, Missed(s.threads[t], h));
    LockKept(s, t, Missed(s.threads[t], h));
    ThreadMoves(base, s, t, Missed(s.threads[t], h), s.holder);
  }

  lemma PendingHitKeeps(base: Shelf, s: System, t: Tid, h: PageHash)
    requires SystemInv(base, s) && t in s.threads && (h in s.threads[t].todo || h in s.threads[t].misses)
    requires h in s.shelf.index
    ensures h in s.threads[t].batch && SystemInv(base, Answered(s, t, First(s.threads[t].batch, h)))
  {
    assert ThreadInv(s.shelf.index, s.threads[t]);
    NotYet(s.shelf.index, s.threads[t], h);
    HitKeeps(base, s, t, First(s.threads[t].batch, h));
  }

  lemma AcquireKeeps(base: Shelf, s: System, t: Tid)
    requires SystemInv(base, s) && t in s.threads && s.threads[t].stage.Probing? && s.threads[t].todo == {} && s.holder.None?
    ensures SystemInv(base, With(s, t, s.threads[t].(stage := Locked)).(holder := Some(t)))
  {
    AnsweringIsFine(s.shelf.index, s.threads[t], Locked);
    SameOuts(s.threads, t, s.threads[t].(stage := Locked));
    LockTaken(s, t, s.threads[t].(stage := Locked));
    ThreadMoves(base, s, t, s.threads[t].(stage := Locked), Some(t));
  }

  lemma AnsweringIsFine(index: Entries, th: Thread, stage: Stage)
    requires ThreadInv(index, th) && th.todo == {} && (stage.Locked? || (stage.Answering? && th.misses == {}))
    ensures ThreadInv(index, th.(stage := stage))
  {
    assert forall i :: i in th.outs ==> OutInv(index, th, i);
    assert forall i :: i in th.outs ==> OutInv(index, th.(stage := stage), i);
  }

  lemma ReleaseKeeps(base: Shelf, s: System, t: Tid)
    requires SystemInv(base, s) && s.holder == Some(t) && s.threads[t].misses == {}
    ensures SystemInv(base, With(s, t, s.threads[t].(stage := Answering)).(holder := None))
  {
    AnsweringIsFine(s.shelf.index, s.threads[t], Answering);
    SameOuts(s.threads, t, s.threads[t].(stage := Answering));
    LockFreed(s, t, s.threads[t].(stage := Answering));
    ThreadMoves(base, s, t, s.threads[t].(stage := Answering), None);
  }

  lemma NothingKeeps(base: Shelf, s: System, t: Tid)
    requires SystemInv(base, s) && t in s.threads && s.threads[t].stage.Probing?
    requires s.threads[t].todo == {} && s.threads[t].misses == {}
    ensures SystemInv(base, With(s, t, s.threads[t].(stage := Answering)))
  {
    AnsweringIsFine(s.shelf.index, s.threads[t], Answering);
    ThreadMoves(base, s, t, s.threads[t].(stage := Answering), s.holder);
  }

  lemma StartKeeps(base: Shelf, s: System, t: Tid, batch: seq<PageHash>)
    requires SystemInv(base, s) && t !in s.threads
    ensures SystemInv(base, With(s, t, Thread(batch, Probing, HashesOf(batch), {}, map[])))
  {
    var th := Thread(batch, Probing, HashesOf(batch), {}, map[]);
    assert ThreadInv(s.shelf.index, th) && SameNew(s.threads, t, th);
    ThreadMoves(base, s, t, th, s.holder);
  }

  /** By the time a thread fills in repeats, every hash of its batch is indexed: the unwrap never fails. */
  lemma RepeatsAreIndexed(index: Entries, th: Thread, i: nat)
    requires ThreadInv(index, th) && th.stage.Answering? && i < |th.batch|
    ensures th.batch[i] in index
  {
    assert th.batch[i] in th.batch;
    assert OutInv(index, th, First(th.batch, th.batch[i]));
  }

  lemma StepKeeps(base: Shelf, s: System, step: Step)
    requires SystemInv(base, s) && Enabled(s, step)
    ensures SystemInv(base, Do(s, step))
  {
    match step {
      case Start(t, batch) => StartKeeps(base, s, t, batch);
      case Probe(t, h) =>
        if h in s.shelf.index {
          PendingHitKeeps(base, s, t, h);
        } else {
          MissKeeps(base, s, t, h);
        }
      case Acquire(t) => AcquireKeeps(base, s, t);
      case Rotate(t) => RotateKeeps(base, s);
      case Fence => RotateKeeps(base, s);
      case Write(t, h) =>
        if h in s.shelf.index {
          PendingHitKeeps(base, s, t, h);
        } else {
          StoreKeeps(base, s, t, h);
        }
      case Release(t) => ReleaseKeeps(base, s, t);
      case NothingToWrite(t) => NothingKeeps(base, s, t);
      case Fill(t, i) =>
        RepeatsAreIndexed(s.shelf.index, s.threads[t], i);
        HitKeeps(base, s, t, i);
    }
  }

  // ── Runs ───────────────────────────────────────────────────────────────

  ghost predicate CanRun(s: System, steps: seq<Step>)
    decreases |steps|
  {
    steps == [] || (Enabled(s, steps[0]) && CanRun(Do(s, steps[0]), steps[1..]))
  }

  ghost function Run(s: System, steps: seq<Step>): System
    requires CanRun(s, steps)
    decreases |steps|
  {
    if steps == [] then s else Run(Do(s, steps[0]), steps[1..])
  }

  lemma {:induction false} RunKeeps(base: Shelf, s: System, steps: seq<Step>)
    requires SystemInv(base, s) && CanRun(s, steps)
    ensures SystemInv(base, Run(s, steps))
    decreases |steps|
  {
    if steps != [] {
      StepKeeps(base, s, steps[0]);
      RunKeeps(base, Do(s, steps[0]), steps[1..]);
    }
  }

  function Idle(base: Shelf): System { System(base, None, map[], []) }

  /** Exactly one outcome of one thread reports `h` as newly written. */
  ghost predicate ReportedOnce(threads: map<Tid, Thread>, h: PageHash) {
    exists e :: Recorded(threads, e) && e.h == h && forall f :: Recorded(threads, f) && f.h == h ==> f == e
  }

  lemma NewIsReportedOnce(base: Entries, index: Entries, threads: map<Tid, Thread>, log: seq<Event>, h: PageHash)
    requires LogInv(base, index, log) && ReportInv(threads, log) && h in index && h !in base
    ensures ReportedOnce(threads, h)
  {
    assert Logged(log, h);
    var k :| 0 <= k < |log| && log[k].h == h;
    assert Recorded(threads, log[k]);
    forall f | Recorded(threads, f) && f.h == h
      ensures f == log[k]
    {
      LoggedOnce(base, index, threads, log, k, f);
    }
  }

  lemma LoggedOnce(base: Entries, index: Entries, threads: map<Tid, Thread>, log: seq<Event>, k: nat, f: Event)
    requires LogInv(base, index, log) && ReportInv(threads, log) && k < |log| && Recorded(threads, f) && f.h == log[k].h
    ensures f == log[k]
  {
    assert Event(f.t, f.i, f.h) in log;
    var j :| 0 <= j < |log| && log[j] == f;
    assert log[j].h == log[k].h;
  }

  lemma ReportedIsNew(base: Entries, index: Entries, threads: map<Tid, Thread>, log: seq<Event>, e: Event)
    requires LogInv(base, index, log) && ReportInv(threads, log) && Recorded(threads, e)
    ensures e.h in index && e.h !in base
  {
    assert Event(e.t, e.i, e.h) in log;
  }

  /** Each hash the index lacked was written once and is reported newly written by one thread at one position, and no
      other hash is. */
  ghost predicate OncePerHash(base: Entries, s: System) {
    && (forall h :: h in s.shelf.index && h !in base ==> ReportedOnce(s.threads, h))
    && (forall e :: Recorded(s.threads, e) ==> e.h in s.shelf.index && e.h !in base)
  }

  ghost predicate Located(shelf: Shelf, th: Thread, i: nat)
    requires i in th.outs
  {
    i < |th.batch| && StoredAt(shelf.packs, th.outs[i].loc, th.batch[i])
  }

  /** A location handed out holds its page, and the closing lookup of a thread that has written finds every hash. */
  ghost predicate AllLocated(s: System) {
    && (forall t, i :: t in s.threads && i in s.threads[t].outs ==> Located(s.shelf, s.threads[t], i))
    && (forall t, h :: t in s.threads && s.threads[t].stage.Answering? && h in s.threads[t].batch ==> h in s.shelf.index)
  }

  ghost predicate SameGrowth(base: Shelf, s: Shelf) {
    && Total(s.packs, s.nextId) - Total(base.packs, base.nextId) == |s.index| - |base.index|
    && Grew(base.index, s.index)
  }

  lemma ThreadIsLocated(shelf: Shelf, th: Thread)
    requires ShelfInv(shelf) && ThreadInv(shelf.index, th)
    ensures forall i :: i in th.outs ==> Located(shelf, th, i)
    ensures th.stage.Answering? ==> forall h :: h in th.batch ==> h in shelf.index
  {
    forall i | i in th.outs
      ensures Located(shelf, th, i)
    {
      assert OutInv(shelf.index, th, i);
    }
    forall h | th.stage.Answering? && h in th.batch
      ensures h in shelf.index
    {
      RepeatsAreIndexed(shelf.index, th, First(th.batch, h));
    }
  }

  /** Every interleaving of every number of batches, started on any sound store. */
  lemma InterleavedIngest(base: Shelf, steps: seq<Step>)
    requires ShelfInv(base) && CanRun(Idle(base), steps)
    ensures SameGrowth(base, Run(Idle(base), steps).shelf)
    ensures OncePerHash(base.index, Run(Idle(base), steps))
    ensures AllLocated(Run(Idle(base), steps))
  {
    RunKeeps(base, Idle(base), steps);
    SoundSystem(base, Run(Idle(base), steps));
  }

  lemma SoundSystem(base: Shelf, s: System)
    requires SystemInv(base, s)
    ensures SameGrowth(base, s.shelf) && OncePerHash(base.index, s) && AllLocated(s)
  {
    forall h | h in s.shelf.index && h !in base.index
      ensures ReportedOnce(s.threads, h)
    {
      NewIsReportedOnce(base.index, s.shelf.index, s.threads, s.log, h);
    }
    forall e | Recorded(s.threads, e)
      ensures e.h in s.shelf.index && e.h !in base.index
    {
      ReportedIsNew(base.index, s.shelf.index, s.threads, s.log, e);
    }
    forall t | t in s.threads
      ensures forall i :: i in s.threads[t].outs ==> Located(s.shelf, s.threads[t], i)
      ensures s.threads[t].stage.Answering? ==> forall h :: h in s.threads[t].batch ==> h in s.shelf.index
    {
      ThreadIsLocated(s.shelf, s.threads[t]);
    }
  }

  // ── Every batch is answered ────────────────────────────────────────────

  /** The thread a step belongs to, unless it brings a new one in or only rotates. */
  ghost function Mover(step: Step): Option<Tid> {
    match step
    case Probe(t, h) => Some(t)
    case Acquire(t) => Some(t)
    case Write(t, h) => Some(t)
    case Release(t) => Some(t)
    case NothingToWrite(t) => Some(t)
    case Fill(t, i) => Some(t)
    case _ => None
  }

  ghost predicate IsAnswered(th: Thread) {
    th.stage.Answering? && forall i :: 0 <= i < |th.batch| ==> i in th.outs
  }

  ghost function Open(th: Thread): set<nat> { set i | 0 <= i < |th.batch| && i !in th.outs }

  function StagesLeft(stage: Stage): nat { match stage case Probing => 2 case Locked => 1 case Answering => 0 }

  /** What is left for a thread to do. */
  ghost function Left(th: Thread): nat { 2 * |th.todo| + |th.misses| + StagesLeft(th.stage) + |Open(th)| }

  lemma OpenShrinks(th: Thread, i: nat, o: Outcome)
    requires i < |th.batch|
    ensures var more := th.(outs := th.outs[i := o]);
      Open(more) == Open(th) - {i} && |Open(more)| == |Open(th)| - if i in th.outs then 0 else 1
  {
    var more := th.(outs := th.outs[i := o]);
    assert Open(more) == Open(th) - {i};
    if i !in th.outs {
      assert i in Open(th);
    }
  }

  lemma SameOpen(a: Thread, b: Thread)
    requires a.batch == b.batch && a.outs == b.outs
    ensures Open(a) == Open(b)
  {
  }

  lemma HitLeavesLess(th: Thread, i: nat, h: PageHash, loc: Loc)
    requires i < |th.batch| && (h in th.todo || h in th.misses || i !in th.outs)
    ensures Left(Hit(th, i, h, loc)) < Left(th)
  {
    OpenShrinks(th, i, Outcome(h, loc, false));
    SameOpen(Hit(th, i, h, loc), th.(outs := th.outs[i := Outcome(h, loc, false)]));
    Removed(th.todo, h);
    Removed(th.misses, h);
  }

  lemma Removed(s: set<PageHash>, h: PageHash)
    ensures |s - {h}| == |s| - if h in s then 1 else 0
  {
    if h !in s {
      assert s - {h} == s;
    }
  }

  lemma MissLeavesLess(th: Thread, h: PageHash)
    requires h in th.todo
    ensures Left(Missed(th, h)) < Left(th)
  {
    SameOpen(th, Missed(th, h));
    Removed(th.todo, h);
    assert |th.misses + {h}| <= |th.misses| + 1;
  }

  lemma StoredLeavesLess(s: System, t: Tid, h: PageHash)
    requires t in s.threads && h in s.threads[t].batch && s.shelf.active in s.shelf.packs && h in s.threads[t].misses
    ensures Left(Stored(s, t, h).threads[t]) < Left(s.threads[t])
  {
    var th := s.threads[t];
    var i, o := First(th.batch, h), Outcome(h, Next(s.shelf), true);
    OpenShrinks(th, i, o);
    SameOpen(Stored(s, t, h).threads[t], th.(outs := th.outs[i := o]));
    Removed(th.misses, h);
  }

  lemma StageLeavesLess(th: Thread, stage: Stage)
    requires StagesLeft(stage) < StagesLeft(th.stage)
    ensures Left(th.(stage := stage)) < Left(th)
  {
    SameOpen(th, th.(stage := stage));
  }

  lemma ProbeLeavesLess(s: System, t: Tid, h: PageHash)
    requires Enabled(s, Probe(t, h))
    ensures Left(Do(s, Probe(t, h)).threads[t]) < Left(s.threads[t])
  {
    if h in s.shelf.index {
      HitLeavesLess(s.threads[t], First(s.threads[t].batch, h), h, s.shelf.index[h]);
    } else {
      MissLeavesLess(s.threads[t], h);
    }
  }

  lemma WriteLeavesLess(s: System, t: Tid, h: PageHash)
    requires Enabled(s, Write(t, h))
    ensures Left(Do(s, Write(t, h)).threads[t]) < Left(s.threads[t])
  {
    if h in s.shelf.index {
      HitLeavesLess(s.threads[t], First(s.threads[t].batch, h), h, s.shelf.index[h]);
    } else {
      StoredLeavesLess(s, t, h);
    }
  }

  lemma FillLeavesLess(s: System, t: Tid, i: nat)
    requires ThreadsInv(s) && Enabled(s, Fill(t, i))
    ensures Left(Do(s, Fill(t, i)).threads[t]) < Left(s.threads[t])
  {
    var th := s.threads[t];
    RepeatsAreIndexed(s.shelf.index, th, i);
    HitLeavesLess(th, i, th.batch[i], s.shelf.index[th.batch[i]]);
  }

  lemma TurnLeavesLess(s: System, t: Tid, step: Step)
    requires LockInv(s) && Enabled(s, step) && (step == Acquire(t) || step == Release(t) || step == NothingToWrite(t))
    ensures t in s.threads && Left(Do(s, step).threads[t]) < Left(s.threads[t])
  {
    StageLeavesLess(s.threads[t], if step.Acquire? then Locked else Answering);
  }

  lemma StepSparesOthers(s: System, step: Step)
    requires Enabled(s, step) && Mover(step).Some? && Mover(step).value in s.threads
    ensures Do(s, step).threads.Keys == s.threads.Keys
    ensures forall u :: u in s.threads && u != Mover(step).value ==> Do(s, step).threads[u] == s.threads[u]
  {
  }

  lemma StepLeavesLess(s: System, step: Step)
    requires LockInv(s) && ThreadsInv(s) && Enabled(s, step) && Mover(step).Some?
    ensures Mover(step).value in s.threads && Mover(step).value in Do(s, step).threads
    ensures Left(Do(s, step).threads[Mover(step).value]) < Left(s.threads[Mover(step).value])
  {
    match step {
      case Probe(t, h) => ProbeLeavesLess(s, t, h);
      case Write(t, h) => WriteLeavesLess(s, t, h);
      case Fill(t, i) => FillLeavesLess(s, t, i);
      case Acquire(t) => TurnLeavesLess(s, t, step);
      case Release(t) => TurnLeavesLess(s, t, step);
      case NothingToWrite(t) => TurnLeavesLess(s, t, step);
    }
  }

  /** Each step of a thread leaves it less to do and leaves the others alone, so no thread steps for ever. */
  lemma StepsRunOut(base: Shelf, s: System, step: Step)
    requires SystemInv(base, s) && Enabled(s, step) && Mover(step).Some?
    ensures var t := Mover(step).value;
      && t in s.threads && Do(s, step).threads.Keys == s.threads.Keys && Left(Do(s, step).threads[t]) < Left(s.threads[t])
      && forall u :: u in s.threads && u != t ==> Do(s, step).threads[u] == s.threads[u]
  {
    StepLeavesLess(s, step);
    StepSparesOthers(s, step);
  }

  /** While a batch is not answered, its thread can step, or the one that holds the lock can. */
  lemma NoDeadlock(base: Shelf, s: System, t: Tid) returns (step: Step)
    requires SystemInv(base, s) && t in s.threads && !IsAnswered(s.threads[t])
    ensures Enabled(s, step) && (Mover(step) == Some(t) || (s.holder.Some? && Mover(step) == s.holder))
  {
    var th := s.threads[t];
    assert ThreadInv(s.shelf.index, th);
    match th.stage {
      case Answering =>
        var i :| 0 <= i < |th.batch| && i !in th.outs;
        step := Fill(t, i);
      case Locked => step := LockedStep(base, s, t);
      case Probing =>
        if th.todo != {} {
          var h :| h in th.todo;
          step := Probe(t, h);
        } else if th.misses == {} {
          step := NothingToWrite(t);
        } else if s.holder.None? {
          step := Acquire(t);
        } else {
          step := LockedStep(base, s, s.holder.value);
        }
    }
  }

  lemma LockedStep(base: Shelf, s: System, t: Tid) returns (step: Step)
    requires SystemInv(base, s) && s.holder == Some(t)
    ensures Enabled(s, step) && Mover(step) == Some(t)
  {
    assert ThreadInv(s.shelf.index, s.threads[t]);
    if s.threads[t].misses == {} {
      step := Release(t);
    } else {
      var h :| h in s.threads[t].misses;
      step := Write(t, h);
    }
  }

  /** What is left for the threads with ids below `n`. */
  ghost function LeftBelow(threads: map<Tid, Thread>, n: nat): nat {
    if n == 0 then 0 else LeftBelow(threads, n - 1) + if n - 1 in threads then Left(threads[n - 1]) else 0
  }

  lemma {:induction false} LeftFalls(a: map<Tid, Thread>, b: map<Tid, Thread>, n: nat, t: Tid)
    requires a.Keys == b.Keys && t in a && Left(b[t]) < Left(a[t]) && forall u :: u in a && u != t ==> b[u] == a[u]
    ensures if t < n then LeftBelow(b, n) < LeftBelow(a, n) else LeftBelow(b, n) == LeftBelow(a, n)
  {
    if n > 0 {
      LeftFalls(a, b, n - 1, t);
    }
  }

  ghost predicate AllAnswered(threads: map<Tid, Thread>) {
    forall t :: t in threads ==> IsAnswered(threads[t])
  }

  lemma OneStepOn(base: Shelf, s: System, n: nat) returns (step: Step)
    requires SystemInv(base, s) && (forall t :: t in s.threads ==> t < n) && !AllAnswered(s.threads)
    ensures Enabled(s, step) && SystemInv(base, Do(s, step))
    ensures Do(s, step).threads.Keys == s.threads.Keys && LeftBelow(Do(s, step).threads, n) < LeftBelow(s.threads, n)
  {
    var t :| t in s.threads && !IsAnswered(s.threads[t]);
    step := NoDeadlock(base, s, t);
    StepsRunOut(base, s, step);
    StepKeeps(base, s, step);
    LeftFalls(s.threads, Do(s, step).threads, n, Mover(step).value);
  }

  /** From every state any interleaving reaches, the threads can go on until every batch is answered. */
  lemma {:induction false} CanFinish(base: Shelf, s: System, n: nat) returns (steps: seq<Step>)
    requires SystemInv(base, s) && forall t :: t in s.threads ==> t < n
    ensures CanRun(s, steps)
    ensures Run(s, steps).threads.Keys == s.threads.Keys && AllAnswered(Run(s, steps).threads)
    decreases LeftBelow(s.threads, n)
  {
    if AllAnswered(s.threads) {
      steps := [];
    } else {
      var step := OneStepOn(base, s, n);
      var rest := CanFinish(base, Do(s, step), n);
      steps := [step] + rest;
      assert steps[1..] == rest;
    }
  }
}
