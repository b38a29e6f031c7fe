/** Reads that race with ingest, rotation and the collector. */
module Readers {
  import opened Base
  import opened Sorting
  import opened Index
  import opened StoreModel

  datatype ReadError = NotFound | Truncated | HashMismatch

  /** What a reader sees of the store. `linked` are the packs in the directory; `files` also holds unlinked packs, which an
      open handle keeps readable; `bytes` is the payload of every record. */
  datatype Sight = Sight(
    linked: set<PackId>,
    files: map<PackId, Pack>,
    bytes: map<Loc, Bytes>,
    index: map<PageHash, Loc>,
    active: PackId)

  ghost predicate PayloadsHash(hash: Blake3, v: Sight, p: PackId)
    requires p in v.files
  {
    forall i :: 0 <= i < |v.files[p].records| ==>
      Loc(p, i) in v.bytes && hash(v.bytes[Loc(p, i)]) == v.files[p].records[i].bytes
  }

  ghost predicate FileSound(v: Sight, p: PackId)
    requires p in v.files
  {
    && v.files[p].flushed <= |v.files[p].records|
    && (v.files[p].isSealed ==> v.files[p].flushed == |v.files[p].records|)
    && (p !in v.linked ==> v.files[p].isSealed)
  }

  ghost predicate EntrySound(v: Sight, h: PageHash)
    requires h in v.index
  {
    var e := v.index[h];
    StoredAt(v.files, e, h) && e.pack in v.linked && (v.files[e.pack].isSealed || e.pack == v.active)
  }

  ghost predicate Sound(hash: Blake3, v: Sight) {
    Coherent(v) && forall p :: p in v.files ==> PayloadsHash(hash, v, p)
  }

  ghost predicate Coherent(v: Sight) {
    && v.linked <= v.files.Keys && v.active in v.linked
    && (forall p :: p in v.files ==> FileSound(v, p))
    && (forall h :: h in v.index ==> EntrySound(v, h))
  }

  /** What a thread may count on across any steps of the others: files only grow or seal, an unlinked pack never returns,
      and the active pack is left only once it is sealed. */
  ghost predicate Progress(v: Sight, w: Sight) {
    && (forall p :: p in v.files ==> p in w.files && Extends(v.files[p], w.files[p]))
    && (forall p :: p in v.files && p !in v.linked ==> p !in w.linked)
    && (w.active != v.active ==> v.active in w.files && w.files[v.active].isSealed)
  }

  /** A hash indexed throughout keeps its entry or moves into a sealed pack. */
  ghost predicate StaysPut(v: Sight, w: Sight, h: PageHash) {
    && h in v.index && h in w.index
    && (w.index[h] == v.index[h] || (w.index[h].pack in w.files && w.files[w.index[h].pack].isSealed))
  }

  ghost predicate Kept(v: Sight, w: Sight, kept: set<PageHash>) {
    forall h :: h in kept ==> StaysPut(v, w, h)
  }

  /** What other threads and the collector may have done between two moments. */
  ghost predicate Through(v: Sight, w: Sight, kept: set<PageHash>) { Progress(v, w) && Kept(v, w, kept) }

  /** Pack `p` was unlinked at some moment between `v` and `w`. */
  ghost predicate Unlinked(v: Sight, w: Sight, p: PackId) {
    p in w.files && p !in w.linked && !(p in v.files && p !in v.linked)
  }

  ghost predicate HoldsHash(v: Sight, p: PackId, h: PageHash) {
    p in v.files && h in v.files[p].records
  }

  /** Two packs holding `h` were unlinked between `v` and `w`. */
  ghost predicate TwoUnlinked(v: Sight, w: Sight, h: PageHash) {
    exists p, q :: p != q && Unlinked(v, w, p) && Unlinked(v, w, q) && HoldsHash(w, p, h) && HoldsHash(w, q, h)
  }

  /** A location taken from the index since `u`: its file holds the hash, and is sealed unless it is still active. */
  ghost predicate Known(u: Sight, v: Sight, loc: Loc, h: PageHash) {
    && StoredAt(v.files, loc, h)
    && (v.files[loc.pack].isSealed || loc.pack == v.active)
    && !(loc.pack in u.files && loc.pack !in u.linked)
  }

  /** While a hash stays indexed, its entry is still `loc` or has moved into a sealed pack. */
  ghost predicate Settled(v: Sight, loc: Loc, h: PageHash) {
    h in v.index && (v.index[h] == loc || (v.index[h].pack in v.files && v.files[v.index[h].pack].isSealed))
  }

  lemma ProgressIsTransitive(u: Sight, v: Sight, w: Sight)
    requires Progress(u, v) && Progress(v, w)
    ensures Progress(u, w)
  {
  }

  lemma KeptIsTransitive(u: Sight, v: Sight, w: Sight, kept: set<PageHash>)
    requires Progress(v, w) && Kept(u, v, kept) && Kept(v, w, kept)
    ensures Kept(u, w, kept)
  {
    forall h | h in kept
      ensures StaysPut(u, w, h)
    {
      assert StaysPut(u, v, h) && StaysPut(v, w, h);
    }
  }

  lemma HoldsPersists(v: Sight, w: Sight, loc: Loc, h: PageHash)
    requires Progress(v, w) && StoredAt(v.files, loc, h)
    ensures StoredAt(w.files, loc, h)
  {
  }

  lemma KnownPersists(u: Sight, v: Sight, w: Sight, loc: Loc, h: PageHash)
    requires Progress(v, w) && Known(u, v, loc, h)
    ensures Known(u, w, loc, h)
  {
    HoldsPersists(v, w, loc, h);
  }

  lemma UnlinkedPersists(u: Sight, v: Sight, w: Sight, p: PackId)
    requires Progress(v, w) && Unlinked(u, v, p)
    ensures Unlinked(u, w, p)
  {
  }

  lemma SettledPersists(v: Sight, w: Sight, loc: Loc, h: PageHash)
    requires Progress(v, w) && StaysPut(v, w, h) && Settled(v, loc, h)
    ensures Settled(w, loc, h)
  {
  }

  lemma EntryIsKnown(hash: Blake3, u: Sight, v: Sight, h: PageHash)
    requires Sound(hash, v) && Progress(u, v) && h in v.index
    ensures Known(u, v, v.index[h], h) && v.index[h].pack in v.linked
  {
    assert EntrySound(v, h);
  }

  /** The pack of the first location and then that of the second were found unlinked. */
  lemma RetryLost(u: Sight, v: Sight, w: Sight, first: Loc, second: Loc, h: PageHash)
    requires Progress(v, w) && Unlinked(u, v, first.pack) && StoredAt(v.files, first, h)
    requires second.pack in v.linked && Known(u, v, second, h) && second.pack !in w.linked
    ensures TwoUnlinked(u, w, h)
  {
    UnlinkedPersists(u, v, w, first.pack);
    HoldsPersists(v, w, first, h);
    HoldsPersists(v, w, second, h);
    assert Unlinked(u, w, second.pack);
    assert HoldsHash(w, first.pack, h) && HoldsHash(w, second.pack, h);
  }

  /** The record of `h` at `loc` is in the active pack and still in its write buffer. */
  ghost predicate CutOff(v: Sight, loc: Loc, h: PageHash) {
    StoredAt(v.files, loc, h) && loc.pack == v.active && loc.slot >= v.files[loc.pack].flushed
  }

  /** What the last attempt at `loc` came to, in the directory as it is when the answer is given: a pack that is not found
      is gone by then; otherwise the record is cut off exactly if it is still buffered, and nothing else goes wrong. */
  ghost predicate LastRead(r: Result<Option<Bytes>, ReadError>, v: Sight, loc: Loc, h: PageHash) {
    && (r == Err(NotFound) ==> loc.pack !in v.linked)
    && (r != Err(NotFound) ==> (r.Err? <==> CutOff(v, loc, h)))
    && (r.Err? ==> r.error == NotFound || r.error == Truncated)
  }

  /** At `m`, some moment between `v` and `w`, the index gave `e` for `h`. */
  ghost predicate Gave(hash: Blake3, v: Sight, m: Sight, w: Sight, kept: set<PageHash>, h: PageHash, e: Loc) {
    Through(v, m, kept) && Sound(hash, m) && h in m.index && m.index[h] == e && Through(m, w, kept)
  }

  /** After the first location's pack was found unlinked, the index gives another one, in a pack still linked. */
  lemma Reconsulted(hash: Blake3, u: Sight, v: Sight, w: Sight, loc: Loc, h: PageHash)
    requires Sound(hash, w) && Progress(u, v) && Progress(v, w)
    requires Known(u, v, loc, h) && loc.pack !in v.linked && h in w.index
    ensures var e := w.index[h];
      Known(u, w, e, h) && e.pack in w.linked && e != loc && Unlinked(u, w, loc.pack) && StoredAt(w.files, loc, h)
  {
    ProgressIsTransitive(u, v, w);
    EntryIsKnown(hash, u, w, h);
    UnlinkedPersists(u, v, w, loc.pack);
    HoldsPersists(v, w, loc, h);
  }

  lemma StillSought(u: Sight, v: Sight, w: Sight, loc: Loc, h: PageHash, kept: set<PageHash>)
    requires Progress(u, v) && Through(v, w, kept) && Known(u, v, loc, h) && (h in kept ==> Settled(v, loc, h))
    ensures Progress(u, w) && Known(u, w, loc, h) && (h in kept ==> Settled(w, loc, h))
  {
    ProgressIsTransitive(u, v, w);
    KnownPersists(u, v, w, loc, h);
    if h in kept {
      assert StaysPut(v, w, h);
      SettledPersists(v, w, loc, h);
    }
  }

  lemma LossPersists(u: Sight, v: Sight, w: Sight, loc: Loc, h: PageHash)
    requires Progress(v, w) && Unlinked(u, v, loc.pack) && StoredAt(v.files, loc, h)
    ensures LostOne(u, w, h, loc.pack)
  {
    UnlinkedPersists(u, v, w, loc.pack);
    HoldsPersists(v, w, loc, h);
  }

  type Lookup = (nat, PageHash, Loc)

  ghost predicate LookupOk(u: Sight, v: Sight, hashes: seq<PageHash>, kept: set<PageHash>, x: Lookup) {
    && x.0 < |hashes| && hashes[x.0] == x.1
    && Known(u, v, x.2, x.1)
    && (x.1 in kept ==> Settled(v, x.2, x.1))
  }

  ghost predicate Resolved(u: Sight, v: Sight, hashes: seq<PageHash>, kept: set<PageHash>, xs: seq<Lookup>) {
    forall x :: x in xs ==> LookupOk(u, v, hashes, kept, x)
  }

  ghost predicate Mentions(xs: seq<Lookup>, i: nat) {
    exists x :: x in xs && x.0 == i
  }

  lemma ResolvedPersists(u: Sight, v: Sight, w: Sight, hashes: seq<PageHash>, kept: set<PageHash>, xs: seq<Lookup>)
    requires Progress(v, w) && Kept(v, w, kept) && Resolved(u, v, hashes, kept, xs)
    ensures Resolved(u, w, hashes, kept, xs)
  {
    forall x | x in xs
      ensures LookupOk(u, w, hashes, kept, x)
    {
      assert LookupOk(u, v, hashes, kept, x);
      KnownPersists(u, v, w, x.2, x.1);
      if x.1 in kept {
        assert StaysPut(v, w, x.1);
        SettledPersists(v, w, x.2, x.1);
      }
    }
  }

  lemma MentionsGrow(xs: seq<Lookup>, x: Lookup)
    ensures forall i :: Mentions(xs, i) ==> Mentions(xs + [x], i)
    ensures Mentions(xs + [x], x.0)
  {
    forall i | Mentions(xs, i)
      ensures Mentions(xs + [x], i)
    {
      var y :| y in xs && y.0 == i;
      assert y in xs + [x];
    }
    assert x in xs + [x];
  }

  /** The state of a reader since the call began at `u`, with the first `n` hashes probed into `xs`. */
  ghost predicate Probed(u: Sight, v: Sight, hashes: seq<PageHash>, kept: set<PageHash>, xs: seq<Lookup>, n: nat) {
    && Progress(u, v) && Kept(u, v, kept)
    && Resolved(u, v, hashes, kept, xs)
    && forall i :: 0 <= i < n && i < |hashes| && hashes[i] in kept ==> Mentions(xs, i)
  }

  lemma ProbedPersists(u: Sight, v: Sight, w: Sight, hashes: seq<PageHash>, kept: set<PageHash>, xs: seq<Lookup>, n: nat)
    requires Probed(u, v, hashes, kept, xs, n) && Progress(v, w) && Kept(v, w, kept)
    ensures Probed(u, w, hashes, kept, xs, n)
  {
    ProgressIsTransitive(u, v, w);
    KeptIsTransitive(u, v, w, kept);
    ResolvedPersists(u, v, w, hashes, kept, xs);
  }

  lemma ProbedHit(hash: Blake3, u: Sight, v: Sight, hashes: seq<PageHash>, kept: set<PageHash>, xs: seq<Lookup>, i: nat)
    requires Sound(hash, v) && Probed(u, v, hashes, kept, xs, i) && i < |hashes| && hashes[i] in v.index
    ensures Probed(u, v, hashes, kept, xs + [(i, hashes[i], v.index[hashes[i]])], i + 1)
  {
    var x := (i, hashes[i], v.index[hashes[i]]);
    EntryIsKnown(hash, u, v, hashes[i]);
    MentionsGrow(xs, x);
    assert LookupOk(u, v, hashes, kept, x);
    assert forall y :: y in xs + [x] ==> y in xs || y == x;
  }

  type Pages = seq<Option<Bytes>>

  ghost predicate Good(hash: Blake3, hashes: seq<PageHash>, results: Pages) {
    |results| == |hashes| && forall i :: 0 <= i < |hashes| && results[i].Some? ==> hash(results[i].value) == hashes[i].bytes
  }

  ghost predicate AllSealed(v: Sight, xs: seq<Lookup>) {
    forall x :: x in xs ==> x.2.pack in v.files && v.files[x.2.pack].isSealed
  }

  /** The state of a reader with lookups `xs` of sealed packs still to serve. */
  ghost predicate Serving(hash: Blake3, u: Sight, v: Sight, hashes: seq<PageHash>, kept: set<PageHash>, xs: seq<Lookup>,
                          results: Pages) {
    Progress(u, v) && Resolved(u, v, hashes, kept, xs) && AllSealed(v, xs) && Good(hash, hashes, results)
  }

  /** Pages of kept hashes are never taken back. */
  ghost predicate Fuller(hashes: seq<PageHash>, kept: set<PageHash>, a: Pages, b: Pages) {
    && |a| == |b| == |hashes|
    && forall i :: 0 <= i < |hashes| && hashes[i] in kept && a[i].Some? ==> b[i].Some?
  }

  ghost predicate Served(hash: Blake3, hashes: seq<PageHash>, kept: set<PageHash>, x: Lookup, a: Pages, b: Pages) {
    && Good(hash, hashes, b) && Fuller(hashes, kept, a, b)
    && x.0 < |b| && (x.1 in kept ==> b[x.0].Some?)
  }

  /** What the batch fails with, and why: two packs holding a requested page were unlinked, or one was and the page, which
      did not stay indexed, is now in the write buffer of the active pack. */
  ghost predicate Failed(u: Sight, v: Sight, hashes: seq<PageHash>, kept: set<PageHash>, e: ReadError) {
    match e
    case NotFound => exists i :: 0 <= i < |hashes| && TwoUnlinked(u, v, hashes[i])
    case Truncated => exists i, p, loc ::
      0 <= i < |hashes| && hashes[i] !in kept && LostOne(u, v, hashes[i], p) && CutOff(v, loc, hashes[i])
    case HashMismatch => false
  }

  ghost predicate LostOne(u: Sight, v: Sight, h: PageHash, p: PackId) { Unlinked(u, v, p) && HoldsHash(v, p, h) }

  lemma RetryFails(u: Sight, v: Sight, hashes: seq<PageHash>, kept: set<PageHash>, x: Lookup,
                   r: Result<Option<Bytes>, ReadError>, e: Loc)
    requires x.0 < |hashes| && hashes[x.0] == x.1 && r.Err? && LastRead(r, v, e, x.1) && LostOne(u, v, x.1, x.2.pack)
    requires r == Err(NotFound) ==> TwoUnlinked(u, v, x.1)
    requires r == Err(Truncated) ==> x.1 !in kept
    ensures Failed(u, v, hashes, kept, r.error)
  {
    if r.error == Truncated {
      assert hashes[x.0] !in kept && LostOne(u, v, hashes[x.0], x.2.pack) && CutOff(v, e, hashes[x.0]);
    }
  }

  lemma ServingPersists(hash: Blake3, u: Sight, v: Sight, w: Sight, hashes: seq<PageHash>, kept: set<PageHash>,
                        xs: seq<Lookup>, results: Pages)
    requires Serving(hash, u, v, hashes, kept, xs, results) && Progress(v, w) && Kept(v, w, kept)
    ensures Serving(hash, u, w, hashes, kept, xs, results)
  {
    ProgressIsTransitive(u, v, w);
    ResolvedPersists(u, v, w, hashes, kept, xs);
  }

  ghost predicate ServedAll(hash: Blake3, hashes: seq<PageHash>, kept: set<PageHash>, xs: seq<Lookup>, a: Pages, b: Pages) {
    && Good(hash, hashes, b) && Fuller(hashes, kept, a, b)
    && forall x :: x in xs && x.1 in kept ==> x.0 < |b| && b[x.0].Some?
  }

  lemma AcrossSteps(u: Sight, v: Sight, w: Sight, kept: set<PageHash>)
    requires Through(u, v, kept) && Through(v, w, kept)
    ensures Through(u, w, kept)
  {
    ProgressIsTransitive(u, v, w);
    KeptIsTransitive(u, v, w, kept);
  }

  lemma ServingPart(hash: Blake3, u: Sight, v: Sight, hashes: seq<PageHash>, kept: set<PageHash>, xs: seq<Lookup>,
                    i: nat, j: nat, results: Pages)
    requires Serving(hash, u, v, hashes, kept, xs, results) && i <= j <= |xs|
    ensures Serving(hash, u, v, hashes, kept, xs[i..j], results)
  {
    assert forall x :: x in xs[i..j] ==> x in xs;
  }

  lemma ServingOne(hash: Blake3, u: Sight, v: Sight, hashes: seq<PageHash>, kept: set<PageHash>, xs: seq<Lookup>, k: nat,
                   results: Pages)
    requires Serving(hash, u, v, hashes, kept, xs, results) && k < |xs|
    ensures Serving(hash, u, v, hashes, kept, [xs[k]], results)
  {
    ServingPart(hash, u, v, hashes, kept, xs, k, k + 1, results);
    assert xs[k..k + 1] == [xs[k]];
  }

  /** Lookups name distinct positions only through their hash, so a later write never undoes a kept page. */
  lemma ServedPart(hash: Blake3, hashes: seq<PageHash>, kept: set<PageHash>, xs: seq<Lookup>, i: nat, j: nat,
                   a: Pages, b: Pages, c: Pages)
    requires i <= j <= |xs| && forall x :: x in xs ==> x.0 < |hashes| && hashes[x.0] == x.1
    requires ServedAll(hash, hashes, kept, xs[..i], a, b) && ServedAll(hash, hashes, kept, xs[i..j], b, c)
    ensures ServedAll(hash, hashes, kept, xs[..j], a, c)
  {
    assert xs[..j] == xs[..i] + xs[i..j];
    forall x | x in xs[..j] && x.1 in kept
      ensures x.0 < |c| && c[x.0].Some?
    {
      assert x in xs[..i] || x in xs[i..j];
      if x in xs[..i] {
        assert x in xs;
        assert b[x.0].Some? && hashes[x.0] in kept;
      }
    }
  }

  lemma ServedStep(hash: Blake3, hashes: seq<PageHash>, kept: set<PageHash>, xs: seq<Lookup>, k: nat,
                   a: Pages, b: Pages, c: Pages)
    requires k < |xs| && forall x :: x in xs ==> x.0 < |hashes| && hashes[x.0] == x.1
    requires ServedAll(hash, hashes, kept, xs[..k], a, b) && Served(hash, hashes, kept, xs[k], b, c)
    ensures ServedAll(hash, hashes, kept, xs[..k + 1], a, c)
  {
    assert xs[k..k + 1] == [xs[k]];
    ServedPart(hash, hashes, kept, xs, k, k + 1, a, b, c);
  }

  /** The end of the run of lookups in one pack that starts at `start`. */
  method RunEnd(xs: seq<Lookup>, start: nat) returns (end: nat)
    requires start < |xs|
    ensures start < end <= |xs|
    ensures forall k :: start <= k < end ==> xs[k].2.pack == xs[start].2.pack
    ensures end < |xs| ==> xs[end].2.pack != xs[start].2.pack
  {
    end := start + 1;
    while end < |xs| && xs[end].2.pack == xs[start].2.pack
      invariant start < end <= |xs|
      invariant forall k :: start <= k < end ==> xs[k].2.pack == xs[start].2.pack
    {
      end := end + 1;
    }
  }

  method Partition(xs: seq<Lookup>, id: PackId) returns (here: seq<Lookup>, others: seq<Lookup>)
    ensures forall x :: x in here <==> x in xs && x.2.pack == id
    ensures forall x :: x in others <==> x in xs && x.2.pack != id
  {
    here, others := [], [];
    for k := 0 to |xs|
      invariant forall x :: x in here <==> x in xs[..k] && x.2.pack == id
      invariant forall x :: x in others <==> x in xs[..k] && x.2.pack != id
    {
      assert xs[..k + 1] == xs[..k] + [xs[k]];
      if xs[k].2.pack == id {
        here := here + [xs[k]];
      } else {
        others := others + [xs[k]];
      }
    }
    assert xs[..|xs|] == xs;
  }

  lemma LeftActiveSealed(u: Sight, v: Sight, hashes: seq<PageHash>, kept: set<PageHash>, xs: seq<Lookup>, ys: seq<Lookup>)
    requires Resolved(u, v, hashes, kept, xs) && forall x :: x in ys ==> x in xs && x.2.pack != v.active
    ensures Resolved(u, v, hashes, kept, ys) && AllSealed(v, ys)
  {
    forall x | x in ys
      ensures LookupOk(u, v, hashes, kept, x) && v.files[x.2.pack].isSealed
    {
      assert x in xs;
    }
  }

  lemma ServedBoth(hash: Blake3, hashes: seq<PageHash>, kept: set<PageHash>, xs: seq<Lookup>, ys: seq<Lookup>,
                   zs: seq<Lookup>, a: Pages, b: Pages, c: Pages)
    requires forall x :: x in xs ==> x.0 < |hashes| && hashes[x.0] == x.1 && (x in ys || x in zs)
    requires ServedAll(hash, hashes, kept, ys, a, b) && ServedAll(hash, hashes, kept, zs, b, c)
    ensures ServedAll(hash, hashes, kept, xs, a, c)
  {
    forall x | x in xs && x.1 in kept
      ensures x.0 < |c| && c[x.0].Some?
    {
      if x in ys {
        assert b[x.0].Some? && hashes[x.0] in kept;
      }
    }
  }

  lemma AllMentioned(hash: Blake3, hashes: seq<PageHash>, kept: set<PageHash>, xs: seq<Lookup>, a: Pages, b: Pages)
    requires ServedAll(hash, hashes, kept, xs, a, b)
    requires forall x :: x in xs ==> x.0 < |hashes| && hashes[x.0] == x.1
    requires forall i :: 0 <= i < |hashes| && hashes[i] in kept ==> Mentions(xs, i)
    ensures forall i :: 0 <= i < |hashes| && hashes[i] in kept ==> b[i].Some?
  {
    forall i | 0 <= i < |hashes| && hashes[i] in kept
      ensures b[i].Some?
    {
      var x :| x in xs && x.0 == i;
    }
  }

  class PageReader {
    const hash: Blake3

    var linked: set<PackId>
    var files: map<PackId, Pack>
    var bytes: map<Loc, Bytes>
    var index: map<PageHash, Loc>
    var active: PackId

    // packs with a cached read handle
    var handles: set<PackId>

    ghost function Seen(): Sight
      reads this
    {
      Sight(linked, files, bytes, index, active)
    }

    ghost predicate Valid()
      reads this
    {
      Sound(hash, Seen()) && handles <= files.Keys
    }

    /** Any steps of other threads and the collector, at a point where this thread holds no lock. Callers know only the
        contract; the hashes in `kept` are those nobody removes meanwhile. */
    method Interfere(ghost kept: set<PageHash>)
      requires Valid() && kept <= index.Keys
      modifies this
      ensures Valid() && kept <= index.Keys && Through(old(Seen()), Seen(), kept)
    {
    }

    /** The same while this thread holds the active lock: nobody appends to the active pack or rotates it. */
    method InterfereLocked(ghost kept: set<PageHash>)
      requires Valid() && kept <= index.Keys
      modifies this
      ensures Valid() && kept <= index.Keys && Through(old(Seen()), Seen(), kept)
      ensures active == old(active) && files[active] == old(files[active])
    {
    }

    /** Open the file and put the handle into the cache. `at` is the moment of the open, which fails exactly if the file
        is unlinked then. */
    method OpenFile(p: PackId, ghost kept: set<PageHash>) returns (ok: bool, ghost at: Sight)
      requires Valid() && kept <= index.Keys
      modifies this
      ensures Valid() && kept <= index.Keys && Through(old(Seen()), at, kept) && Through(at, Seen(), kept)
      ensures ok <==> p in at.linked
      ensures ok ==> p in files
    {
      Interfere(kept);
      at := Seen();
      ok := p in linked;
      Interfere(kept);
      ghost var w := Seen();
      if ok {
        handles := handles + {p};
      }
      Interfere(kept);
      AcrossSteps(at, w, Seen(), kept);
    }

    /** A cached handle, or a fresh one: opening the file and caching the handle are moments of their own. */
    method GetOrOpen(p: PackId, ghost kept: set<PageHash>) returns (ok: bool, ghost at: Sight)
      requires Valid() && kept <= index.Keys
      modifies this
      ensures Valid() && kept <= index.Keys && Through(old(Seen()), Seen(), kept)
      ensures Through(old(Seen()), at, kept) && Through(at, Seen(), kept)
      ensures ok <==> p in old(handles) || p in at.linked
      ensures ok ==> p in files
      ensures !ok && p in old(files) ==> p !in linked
    {
      ghost var u := Seen();
      if p in handles {
        ok, at := true, u;
        Interfere(kept);
        return;
      }
      ok, at := OpenFile(p, kept);
      AcrossSteps(u, at, Seen(), kept);
    }

    method Invalidate(p: PackId)
      requires Valid()
      modifies this`handles
      ensures Valid() && handles == old(handles) - {p}
    {
      handles := handles - {p};
    }

    /** Read one record through a handle: only what was flushed is in the file, and both the stored and the recomputed
        hash must be the expected one. */
    method ReadAt(loc: Loc, h: PageHash) returns (r: Result<Bytes, ReadError>)
      requires Valid() && loc.pack in files
      ensures r.Ok? <==> StoredAt(files, loc, h) && loc.slot < files[loc.pack].flushed
      ensures r == Err(Truncated) <==> loc.slot >= files[loc.pack].flushed
      ensures r.Ok? ==> hash(r.value) == h.bytes
    {
      var f := files[loc.pack];
      assert FileSound(Seen(), loc.pack) && PayloadsHash(hash, Seen(), loc.pack);
      if loc.slot >= f.flushed {
        return Err(Truncated);
      }
      var payload := bytes[loc];
      if f.records[loc.slot] != h || hash(payload) != h.bytes {
        return Err(HashMismatch);
      }
      r := Ok(payload);
    }

    /** The second and last attempt, at the location the index gave at `v`, after `gone` was found unlinked. */
    method RetryOnce(h: PageHash, loc: Loc, ghost gone: Loc, ghost u: Sight, ghost v: Sight, ghost kept: set<PageHash>)
      returns (r: Result<Option<Bytes>, ReadError>)
      requires Valid() && kept <= index.Keys && Progress(v, Seen())
      requires Known(u, v, loc, h) && loc.pack in v.linked
      requires Unlinked(u, v, gone.pack) && StoredAt(v.files, gone, h)
      requires h in kept ==> v.files[loc.pack].isSealed
      modifies this
      ensures Valid() && kept <= index.Keys && Through(old(Seen()), Seen(), kept)
      ensures r.Ok? ==> r.value.Some? && hash(r.value.value) == h.bytes
      ensures LastRead(r, Seen(), loc, h)
      ensures r == Err(NotFound) ==> TwoUnlinked(u, Seen(), h) && loc.pack !in old(handles)
      ensures r == Err(Truncated) ==> h !in kept
    {
      ghost var w := Seen();
      var ok, at := GetOrOpen(loc.pack, kept);
      ProgressIsTransitive(v, w, Seen());
      KnownPersists(u, v, Seen(), loc, h);
      if !ok {
        RetryLost(u, v, Seen(), gone, loc, h);
        return Err(NotFound);
      }
      assert FileSound(Seen(), loc.pack);
      var data := ReadAt(loc, h);
      r := if data.Ok? then Ok(Some(data.value)) else Err(data.error);
    }

    /** The first attempt: it fails only if no handle is cached and the pack is gone. */
    method TryHandle(h: PageHash, loc: Loc, ghost kept: set<PageHash>) returns (r: Option<Bytes>)
      requires Valid() && kept <= index.Keys && StoredAt(files, loc, h) && files[loc.pack].isSealed
      modifies this
      ensures Valid() && kept <= index.Keys && Through(old(Seen()), Seen(), kept)
      ensures r.Some? ==> hash(r.value) == h.bytes
      ensures r.None? ==> loc.pack !in linked && loc.pack !in old(handles)
    {
      ghost var v := Seen();
      var ok, at := GetOrOpen(loc.pack, kept);
      if !ok {
        return None;
      }
      HoldsPersists(v, Seen(), loc, h);
      assert FileSound(Seen(), loc.pack);
      var data := ReadAt(loc, h);
      r := Some(data.value);
    }

    /** Drop the stale handle and ask the index again: an entry never names an unlinked pack, so it has moved on. */
    method Reconsult(h: PageHash, loc: Loc, ghost u: Sight, ghost kept: set<PageHash>) returns (e: Option<Loc>)
      requires Valid() && kept <= index.Keys
      requires Progress(u, Seen()) && Known(u, Seen(), loc, h) && loc.pack !in linked
      requires h in kept ==> Settled(Seen(), loc, h)
      modifies this
      ensures Valid() && kept <= index.Keys && Through(old(Seen()), Seen(), kept)
      ensures e.None? ==> h !in kept
      ensures e.Some? ==>
        && h in index && index[h] == e.value
        && e.value != loc && Known(u, Seen(), e.value, h) && e.value.pack in linked
        && Unlinked(u, Seen(), loc.pack) && StoredAt(files, loc, h)
        && (h in kept ==> files[e.value.pack].isSealed)
    {
      ghost var v := Seen();
      Invalidate(loc.pack);
      Interfere(kept);
      if h !in index {
        return None;
      }
      e := Some(index[h]);
      Reconsulted(hash, u, v, Seen(), loc, h);
      if h in kept {
        SettledPersists(v, Seen(), loc, h);
      }
    }

    /** The first attempt, some time after the lookup. */
    method FirstTry(h: PageHash, loc: Loc, ghost u: Sight, ghost kept: set<PageHash>) returns (r: Option<Bytes>)
      requires Valid() && kept <= index.Keys
      requires Progress(u, Seen()) && Known(u, Seen(), loc, h) && files[loc.pack].isSealed
      requires h in kept ==> Settled(Seen(), loc, h)
      modifies this
      ensures Valid() && kept <= index.Keys && Through(old(Seen()), Seen(), kept)
      ensures Progress(u, Seen()) && Known(u, Seen(), loc, h) && (h in kept ==> Settled(Seen(), loc, h))
      ensures r.Some? ==> hash(r.value) == h.bytes
      ensures r.None? ==> loc.pack !in linked
    {
      ghost var u0 := Seen();
      Interfere(kept);
      ghost var v := Seen();
      HoldsPersists(u0, v, loc, h);
      r := TryHandle(h, loc, kept);
      AcrossSteps(u0, v, Seen(), kept);
      StillSought(u, u0, Seen(), loc, h, kept);
    }

    /** `u` is what the reader saw when the call began. A page that stays indexed is returned unless two packs holding it
        were unlinked meanwhile. A page that does not may also be absent, or be cut off in the write buffer: `e` is the
        location the index gave at `m`, after the first pack was found unlinked. */
    method ReadSealedWithRetry(h: PageHash, loc: Loc, ghost u: Sight, ghost kept: set<PageHash>)
      returns (r: Result<Option<Bytes>, ReadError>, ghost e: Option<Loc>, ghost m: Sight)
      requires Valid() && kept <= index.Keys
      requires Progress(u, Seen()) && Known(u, Seen(), loc, h) && files[loc.pack].isSealed
      requires h in kept ==> Settled(Seen(), loc, h)
      modifies this
      ensures Valid() && kept <= index.Keys && Through(old(Seen()), Seen(), kept)
      ensures r.Ok? && r.value.Some? ==> hash(r.value.value) == h.bytes
      ensures r == Ok(None) ==> h !in kept
      ensures r.Err? ==> LostOne(u, Seen(), h, loc.pack)
      ensures r == Err(NotFound) ==> TwoUnlinked(u, Seen(), h)
      ensures r == Err(Truncated) ==> h !in kept
      ensures r.Err? ==> e.Some?
      ensures e.Some? ==> e.value != loc && Gave(hash, old(Seen()), m, Seen(), kept, h, e.value) && LastRead(r, Seen(), e.value, h)
    {
      ghost var u0 := Seen();
      var data := FirstTry(h, loc, u, kept);
      ghost var v := Seen();
      if data.Some? {
        return Ok(data), None, v;
      }
      var newLoc := Reconsult(h, loc, u, kept);
      m := Seen();
      AcrossSteps(u0, v, m, kept);
      if newLoc.None? {
        return Ok(None), None, m;
      }
      e := newLoc;
      Interfere(kept);
      ghost var w := Seen();
      r := RetryOnce(h, newLoc.value, loc, u, m, kept);
      AcrossSteps(m, w, Seen(), kept);
      AcrossSteps(u0, m, Seen(), kept);
      LossPersists(u, m, Seen(), loc, h);
    }

    // ── Batches ──────────────────────────────────────────────────────────

    method ProbeOne(hashes: seq<PageHash>, i: nat, xs: seq<Lookup>, ghost u: Sight, ghost kept: set<PageHash>)
      returns (ys: seq<Lookup>)
      requires Valid() && kept <= index.Keys && i < |hashes| && Probed(u, Seen(), hashes, kept, xs, i)
      modifies this
      ensures Valid() && kept <= index.Keys && Probed(u, Seen(), hashes, kept, ys, i + 1)
    {
      ghost var v := Seen();
      Interfere(kept);
      ProbedPersists(u, v, Seen(), hashes, kept, xs, i);
      ys := xs;
      if hashes[i] in index {
        ys := xs + [(i, hashes[i], index[hashes[i]])];
        ProbedHit(hash, u, Seen(), hashes, kept, xs, i);
      }
    }

    /** Resolve each hash, one index lookup at a time. */
    method Probe(hashes: seq<PageHash>, ghost u: Sight, ghost kept: set<PageHash>) returns (xs: seq<Lookup>)
      requires Valid() && kept <= index.Keys && u == Seen()
      modifies this
      ensures Valid() && kept <= index.Keys && Probed(u, Seen(), hashes, kept, xs, |hashes|)
    {
      xs := [];
      assert Probed(u, Seen(), hashes, kept, xs, 0);
      for i := 0 to |hashes|
        invariant Valid() && kept <= index.Keys && Probed(u, Seen(), hashes, kept, xs, i)
      {
        xs := ProbeOne(hashes, i, xs, u, kept);
      }
    }

    /** Serve one lookup through a handle already open on its pack. */
    method ServeOpen(x: Lookup, results: Pages, hashes: seq<PageHash>, ghost u: Sight, ghost kept: set<PageHash>)
      returns (r: Pages)
      requires Valid() && kept <= index.Keys && Serving(hash, u, Seen(), hashes, kept, [x], results)
      modifies this
      ensures Valid() && kept <= index.Keys && Through(old(Seen()), Seen(), kept)
      ensures Served(hash, hashes, kept, x, results, r)
    {
      ghost var v := Seen();
      Interfere(kept);
      ServingPersists(hash, u, v, Seen(), hashes, kept, [x], results);
      assert x in [x];
      assert LookupOk(u, Seen(), hashes, kept, x);
      assert FileSound(Seen(), x.2.pack);
      var data := ReadAt(x.2, x.1);
      r := results[x.0 := Some(data.value)];
    }

    /** Serve one lookup by the slow path. */
    method ServeRetry(x: Lookup, results: Pages, hashes: seq<PageHash>, ghost u: Sight, ghost kept: set<PageHash>)
      returns (r: Result<Pages, ReadError>)
      requires Valid() && kept <= index.Keys && Serving(hash, u, Seen(), hashes, kept, [x], results)
      modifies this
      ensures Valid() && kept <= index.Keys && Through(old(Seen()), Seen(), kept)
      ensures r.Ok? ==> Served(hash, hashes, kept, x, results, r.value)
      ensures r.Err? ==> Failed(u, Seen(), hashes, kept, r.error)
    {
      assert x in [x];
      assert LookupOk(u, Seen(), hashes, kept, x);
      var data, e, m := ReadSealedWithRetry(x.1, x.2, u, kept);
      if data.Err? {
        RetryFails(u, Seen(), hashes, kept, x, data, e.value);
        return Err(data.error);
      }
      r := Ok(results[x.0 := data.value]);
    }

    /** Serve lookups one by one, through the open handle of their pack or, where it could not be opened, by the slow path. */
    method ServeAll(xs: seq<Lookup>, isOpen: bool, results: Pages, hashes: seq<PageHash>, ghost u: Sight,
                    ghost kept: set<PageHash>)
      returns (r: Result<Pages, ReadError>)
      requires Valid() && kept <= index.Keys && Serving(hash, u, Seen(), hashes, kept, xs, results)
      modifies this
      ensures Valid() && kept <= index.Keys && Through(old(Seen()), Seen(), kept)
      ensures r.Ok? ==> ServedAll(hash, hashes, kept, xs, results, r.value)
      ensures r.Err? ==> Failed(u, Seen(), hashes, kept, r.error)
    {
      var cur := results;
      ghost var v := Seen();
      for k := 0 to |xs|
        invariant Valid() && kept <= index.Keys && Through(v, Seen(), kept)
        invariant Serving(hash, u, Seen(), hashes, kept, xs, cur)
        invariant ServedAll(hash, hashes, kept, xs[..k], results, cur)
      {
        ghost var w := Seen();
        ghost var before := cur;
        ServingOne(hash, u, w, hashes, kept, xs, k, cur);
        if isOpen {
          cur := ServeOpen(xs[k], cur, hashes, u, kept);
        } else {
          var next := ServeRetry(xs[k], cur, hashes, u, kept);
          if next.Err? {
            AcrossSteps(v, w, Seen(), kept);
            return Err(next.error);
          }
          cur := next.value;
        }
        AcrossSteps(v, w, Seen(), kept);
        ServingPersists(hash, u, w, Seen(), hashes, kept, xs, before);
        ServedStep(hash, hashes, kept, xs, k, results, before, cur);
      }
      assert xs[..|xs|] == xs;
      r := Ok(cur);
    }

    /** One handle for lookups in the same pack. */
    method ServeRun(xs: seq<Lookup>, start: nat, end: nat, results: Pages, hashes: seq<PageHash>, ghost u: Sight,
                    ghost kept: set<PageHash>)
      returns (r: Result<Pages, ReadError>)
      requires Valid() && kept <= index.Keys && Serving(hash, u, Seen(), hashes, kept, xs, results)
      requires start < end <= |xs|
      modifies this
      ensures Valid() && kept <= index.Keys && Through(old(Seen()), Seen(), kept)
      ensures r.Ok? ==> ServedAll(hash, hashes, kept, xs[start..end], results, r.value)
      ensures r.Err? ==> Failed(u, Seen(), hashes, kept, r.error)
    {
      ghost var v := Seen();
      ServingPart(hash, u, v, hashes, kept, xs, start, end, results);
      Interfere(kept);
      ghost var before := Seen();
      var isOpen, at := GetOrOpen(xs[start].2.pack, kept);
      ghost var w := Seen();
      AcrossSteps(v, before, w, kept);
      ServingPersists(hash, u, v, w, hashes, kept, xs[start..end], results);
      r := ServeAll(xs[start..end], isOpen, results, hashes, u, kept);
      AcrossSteps(v, w, Seen(), kept);
    }

    /** Run after run. */
    method ServeRuns(xs: seq<Lookup>, results: Pages, hashes: seq<PageHash>, ghost u: Sight, ghost kept: set<PageHash>)
      returns (r: Result<Pages, ReadError>)
      requires Valid() && kept <= index.Keys && Serving(hash, u, Seen(), hashes, kept, xs, results)
      modifies this
      ensures Valid() && kept <= index.Keys && Through(old(Seen()), Seen(), kept)
      ensures r.Ok? ==> ServedAll(hash, hashes, kept, xs, results, r.value)
      ensures r.Err? ==> Failed(u, Seen(), hashes, kept, r.error)
    {
      var cur := results;
      ghost var v := Seen();
      var start := 0;
      while start < |xs|
        invariant start <= |xs|
        invariant Valid() && kept <= index.Keys && Through(v, Seen(), kept)
        invariant Serving(hash, u, Seen(), hashes, kept, xs, cur)
        invariant ServedAll(hash, hashes, kept, xs[..start], results, cur)
      {
        var end := RunEnd(xs, start);
        ghost var w := Seen();
        ghost var before := cur;
        var next := ServeRun(xs, start, end, cur, hashes, u, kept);
        AcrossSteps(v, w, Seen(), kept);
        if next.Err? {
          return Err(next.error);
        }
        cur := next.value;
        ServingPersists(hash, u, w, Seen(), hashes, kept, xs, before);
        ServedPart(hash, hashes, kept, xs, start, end, results, before, cur);
        start := end;
      }
      assert xs[..|xs|] == xs;
      r := Ok(cur);
    }

    method FlushActive(ghost kept: set<PageHash>)
      requires Valid() && kept <= index.Keys
      modifies this`files
      ensures Valid() && Through(old(Seen()), Seen(), kept)
      ensures files[active].flushed == |files[active].records|
    {
      var f := files[active];
      assert FileSound(Seen(), active);
      files := files[active := Flushed(f)];
      assert forall p :: p in files ==> PayloadsHash(hash, old(Seen()), p);
    }

    /** Serve one lookup of the flushed active pack under the lock. */
    method ServeLocked(x: Lookup, results: Pages, hashes: seq<PageHash>, ghost u: Sight, ghost kept: set<PageHash>)
      returns (r: Pages)
      requires Valid() && kept <= index.Keys && Good(hash, hashes, results)
      requires LookupOk(u, Seen(), hashes, kept, x) && x.2.pack == active && files[active].flushed == |files[active].records|
      modifies this
      ensures Valid() && kept <= index.Keys && Through(old(Seen()), Seen(), kept)
      ensures active == old(active) && files[active] == old(files[active])
      ensures Served(hash, hashes, kept, x, results, r)
    {
      ghost var v := Seen();
      InterfereLocked(kept);
      HoldsPersists(v, Seen(), x.2, x.1);
      var data := ReadAt(x.2, x.1);
      r := results[x.0 := Some(data.value)];
    }

    method ServeFlushed(xs: seq<Lookup>, results: Pages, hashes: seq<PageHash>, ghost u: Sight, ghost kept: set<PageHash>)
      returns (r: Pages)
      requires Valid() && kept <= index.Keys && Good(hash, hashes, results)
      requires Resolved(u, Seen(), hashes, kept, xs) && files[active].flushed == |files[active].records|
      requires forall x :: x in xs ==> x.2.pack == active
      modifies this
      ensures Valid() && kept <= index.Keys && Through(old(Seen()), Seen(), kept)
      ensures ServedAll(hash, hashes, kept, xs, results, r)
    {
      r := results;
      ghost var v, f := Seen(), files[active];
      assert forall p :: p in files ==> FileSound(Seen(), p);
      for k := 0 to |xs|
        invariant Valid() && kept <= index.Keys && Through(v, Seen(), kept) && active == v.active && files[active] == f
        invariant Resolved(u, Seen(), hashes, kept, xs)
        invariant ServedAll(hash, hashes, kept, xs[..k], results, r)
      {
        ghost var w, before := Seen(), r;
        assert LookupOk(u, w, hashes, kept, xs[k]);
        r := ServeLocked(xs[k], r, hashes, u, kept);
        AcrossSteps(v, w, Seen(), kept);
        ResolvedPersists(u, w, Seen(), hashes, kept, xs);
        ServedStep(hash, hashes, kept, xs, k, results, before, r);
      }
      assert xs[..|xs|] == xs;
    }

    /** Under the active lock: flush the write buffer, then read lookups of the active pack. */
    method ServeActive(xs: seq<Lookup>, results: Pages, hashes: seq<PageHash>, ghost u: Sight, ghost kept: set<PageHash>)
      returns (r: Pages)
      requires Valid() && kept <= index.Keys && Good(hash, hashes, results)
      requires Resolved(u, Seen(), hashes, kept, xs) && forall x :: x in xs ==> x.2.pack == active
      modifies this
      ensures Valid() && kept <= index.Keys && Through(old(Seen()), Seen(), kept)
      ensures ServedAll(hash, hashes, kept, xs, results, r)
    {
      ghost var v := Seen();
      InterfereLocked(kept);
      ghost var w := Seen();
      if xs == [] {
        return results;
      }
      FlushActive(kept);
      ghost var x := Seen();
      AcrossSteps(v, w, x, kept);
      ResolvedPersists(u, v, x, hashes, kept, xs);
      r := ServeFlushed(xs, results, hashes, u, kept);
      AcrossSteps(v, x, Seen(), kept);
    }

    /** The lookups that were in the active pack at the partition; those it has left behind since are read as sealed. */
    method ServeRest(xs: seq<Lookup>, results: Pages, hashes: seq<PageHash>, ghost u: Sight, ghost kept: set<PageHash>)
      returns (r: Result<Pages, ReadError>)
      requires Valid() && kept <= index.Keys && Good(hash, hashes, results)
      requires Progress(u, Seen()) && Resolved(u, Seen(), hashes, kept, xs)
      modifies this
      ensures Valid() && kept <= index.Keys && Through(old(Seen()), Seen(), kept)
      ensures r.Ok? ==> ServedAll(hash, hashes, kept, xs, results, r.value)
      ensures r.Err? ==> Failed(u, Seen(), hashes, kept, r.error)
    {
      ghost var v := Seen();
      Interfere(kept);
      ghost var w := Seen();
      ProgressIsTransitive(u, v, w);
      ResolvedPersists(u, v, w, hashes, kept, xs);
      var here, moved := Partition(xs, active);
      LeftActiveSealed(u, w, hashes, kept, xs, moved);
      var cur := ServeActive(here, results, hashes, u, kept);
      AcrossSteps(v, w, Seen(), kept);
      ServingPersists(hash, u, w, Seen(), hashes, kept, moved, cur);
      ghost var x := Seen();
      r := ServeAll(moved, false, cur, hashes, u, kept);
      AcrossSteps(v, x, Seen(), kept);
      if r.Ok? {
        ServedBoth(hash, hashes, kept, xs, here, moved, results, cur, r.value);
      }
    }

    /** Every position gets the page asked for, or `None`; a hash in `kept`, that stays indexed throughout, is never `None`.
        The whole batch fails only if two packs holding one of its pages were unlinked during the call, or one was and the
        page, removed meanwhile and written again, is still in the write buffer when it is read. */
    method GetBatch(hashes: seq<PageHash>, ghost kept: set<PageHash>) returns (r: Result<Pages, ReadError>)
      requires Valid() && kept <= index.Keys
      modifies this
      ensures Valid() && kept <= index.Keys && Progress(old(Seen()), Seen())
      ensures r.Ok? ==> Good(hash, hashes, r.value)
      ensures r.Ok? ==> forall i :: 0 <= i < |hashes| && hashes[i] in kept ==> r.value[i].Some?
      ensures r.Err? ==> Failed(old(Seen()), Seen(), hashes, kept, r.error)
    {
      ghost var u := Seen();
      var results: Pages := seq(|hashes|, _ => None);
      var xs := Probe(hashes, u, kept);
      ghost var v := Seen();
      Interfere(kept);
      ProbedPersists(u, v, Seen(), hashes, kept, xs, |hashes|);
      v := Seen();
      var here, others := Partition(xs, active);
      LeftActiveSealed(u, v, hashes, kept, xs, others);
      var sorted := SortBy(others, (x: Lookup) => x.2.pack * 0x1_0000_0000_0000_0000 + 20 + 4133 * x.2.slot);
      SameElements(others, sorted);
      LeftActiveSealed(u, v, hashes, kept, xs, sorted);
      r := ServeRuns(sorted, results, hashes, u, kept);
      if r.Err? {
        ProgressIsTransitive(u, v, Seen());
        return;
      }
      AcrossSteps(u, v, Seen(), kept);
      ResolvedPersists(u, v, Seen(), hashes, kept, xs);
      assert Resolved(u, Seen(), hashes, kept, here);
      var cur := r.value;
      ghost var w := Seen();
      r := ServeRest(here, cur, hashes, u, kept);
      ProgressIsTransitive(u, w, Seen());
      if r.Ok? {
        ServedBoth(hash, hashes, kept, xs, sorted, here, results, cur, r.value);
        AllMentioned(hash, hashes, kept, xs, results, r.value);
      }
    }
  }
}
